/**
 * The controller logic of the document API that is not I/O: how an upload
 * fills in the fields the client left out, how a search request is
 * answered (filter-only listing, or semantic and text hits fused into one
 * ranked list), the response preview, the search-count update, and the
 * MIME type of a served file. The in-memory store stands for the database.
 */
module DocumentController {
  import opened Text
  import opened Types
  import opened Ranking
  import opened JsNumber
  import NodePath
  import opened DocumentProcessor
  import opened AiService
  import opened MockDatabase
  import opened Validation

  // ---------------------------------------------------------------------
  // uploadDocument: defaulting
  // ---------------------------------------------------------------------

  /** The multer file record the upload route receives. */
  datatype UploadedFile = UploadedFile(originalName: string, path: string, size: nat)

  /** `path.extname(name).slice(1).toLowerCase()`. */
  function FileTypeOf(originalName: string): (r: string)
    ensures '.' !in r
    ensures |r| < |NodePath.BaseName(originalName)|  || r == []
  {
    var ext := NodePath.ExtName(originalName);
    ExtensionShorter(originalName);
    var tail := if |ext| == 0 then [] else ext[1..];
    LowerKeepsDotOut(tail);
    Lower(tail)
  }

  /** The text after the extension's dot is dot-free and shorter than the base name. */
  lemma ExtensionShorter(p: string)
    ensures var ext := NodePath.ExtName(p);
      ext == [] || (|ext| - 1 < |NodePath.BaseName(p)| && '.' !in ext[1..])
  {
    NodePath.NameExtSplitBase(p);
  }

  /** Lowercasing adds no dot. */
  lemma LowerKeepsDotOut(s: string)
    requires '.' !in s
    ensures '.' !in Lower(s)
  {
    forall i | 0 <= i < |s| ensures Lower(s)[i] != '.' {
      assert s[i] in s;
    }
  }

  /** A file named `stem.<type>` gets exactly that schema file type. */
  lemma FileTypeOfName(stem: string, t: FileType)
    requires |stem| > 0 && '/' !in stem
    ensures FileTypeOf(stem + "." + t.Name()) == t.Name()
    ensures ParseFileType(FileTypeOf(stem + "." + t.Name())) == Some(t)
  {
    var n := t.Name();
    assert '/' !in n && '.' !in n by {
      forall i | 0 <= i < |n| ensures n[i] != '/' && n[i] != '.' { }
    }
    NodePath.SplitAtLastDot(stem, n);
    FileTypeOfExtension(stem + "." + n, n);
    FileTypeNameRoundTrip(t);
  }

  /** A path whose extension is a dot and lower-case letters has those letters as its type. */
  lemma FileTypeOfExtension(p: string, n: string)
    requires NodePath.ExtName(p) == "." + n
    requires forall i :: 0 <= i < |n| ==> 'a' <= n[i] <= 'z'
    ensures FileTypeOf(p) == n
  {
    assert ("." + n)[1..] == n;
    assert Lower(n) == n;
  }

  /** The record an upload stores: the client's category, team and project
      when given, otherwise the detected category, the team named by the
      stored path, and "general"; its embedding is the content's, which
      later searches compare the query against. */
  function BuildDocData(u: UploadParams, file: UploadedFile, content: string,
                        remote: Option<Embedder>, local: Embedder, sin: int -> real): (r: DocData)
    ensures r.title == file.originalName && r.content == content && r.filePath == file.path
    ensures r.fileType == FileTypeOf(file.originalName) && r.fileSize == file.size
    ensures u.category != [] ==> r.category == u.category
    ensures u.category == [] ==> r.category == Categorize(file.originalName, content).Name()
    ensures u.team != [] ==> r.team == u.team
    ensures u.team == [] ==> r.team == ExtractTeamFromPath(file.path).Name()
    ensures r.project == if u.project != [] then u.project else "general"
    ensures r.tags == ExtractTags(content, file.originalName)
    ensures r.embedding == GenerateEmbedding(content, remote, local, sin)
  {
    DocData(
      file.originalName, content, file.path, FileTypeOf(file.originalName), file.size,
      if u.category != [] then u.category else Categorize(file.originalName, content).Name(),
      if u.team != [] then u.team else ExtractTeamFromPath(file.path).Name(),
      if u.project != [] then u.project else "general",
      ExtractTags(content, file.originalName),
      GenerateEmbedding(content, remote, local, sin))
  }

  /** Behind the upload validator, a stored category is always one of the
      eight, and a stored team or project name is never empty. */
  lemma AcceptedUploadCategory(u: UploadParams, file: UploadedFile, content: string,
                               remote: Option<Embedder>, local: Embedder, sin: int -> real)
    requires ValidateUpload(u) == Accept
    ensures BuildDocData(u, file, content, remote, local, sin).category in CategoryNames
    ensures ParseCategory(BuildDocData(u, file, content, remote, local, sin).category).Some?
    ensures BuildDocData(u, file, content, remote, local, sin).team != []
    ensures BuildDocData(u, file, content, remote, local, sin).project != []
  {
    var t := ExtractTeamFromPath(file.path).Name();
    assert |"general"| == 7;
    CategoryNameRoundTrip(Categorize(file.originalName, content));
  }

  // ---------------------------------------------------------------------
  // searchDocuments: fusion
  // ---------------------------------------------------------------------

  function HitId(h: Hit): int { h.doc.id }

  function HitSimilarity(h: Hit): real { h.similarity }

  /** Position of the entry for `id` in an insertion-ordered map. */
  function IndexOfId(m: seq<Hit>, id: int): (r: Option<nat>)
    ensures r.None? <==> forall i :: 0 <= i < |m| ==> m[i].doc.id != id
    ensures r.Some? ==> r.value < |m| && m[r.value].doc.id == id
  {
    if |m| == 0 then None
    else if m[|m| - 1].doc.id == id then Some(|m| - 1)
    else IndexOfId(m[..|m| - 1], id)
  }

  /** `map.set(id, hit)`: replaces the value in place, or appends. */
  function SetEntry(m: seq<Hit>, h: Hit): (r: seq<Hit>)
  {
    match IndexOfId(m, h.doc.id)
    case Some(i) => m[i := h]
    case None => m + [h]
  }

  /** The semantic pass: every scored document enters as a semantic hit. */
  function AddSemantic(m: seq<Hit>, similar: seq<ScoredDoc>): seq<Hit> {
    if |similar| == 0 then m
    else
      var last := similar[|similar| - 1];
      SetEntry(AddSemantic(m, similar[..|similar| - 1]), Hit(last.doc, last.similarity, SemanticMatch))
  }

  /** The score a text-only hit is given. */
  const TextSimilarity: real := 0.5

  /** The text pass: a document not yet in the map enters with similarity 0.5. */
  function AddText(m: seq<Hit>, text: seq<Document>): seq<Hit> {
    if |text| == 0 then m
    else
      var m' := AddText(m, text[..|text| - 1]);
      var d := text[|text| - 1];
      if IndexOfId(m', d.id).Some? then m' else m' + [Hit(d, TextSimilarity, TextMatch)]
  }

  predicate InSemantic(similar: seq<ScoredDoc>, id: int) {
    exists k :: 0 <= k < |similar| && similar[k].doc.id == id
  }

  predicate InText(text: seq<Document>, id: int) {
    exists k :: 0 <= k < |text| && text[k].id == id
  }

  predicate HasHit(m: seq<Hit>, id: int) {
    exists i :: 0 <= i < |m| && m[i].doc.id == id
  }

  /** Where a fused hit may come from: a semantic hit with its own score,
      or a text hit at 0.5 for a document the semantic pass did not list. */
  predicate Sourced(similar: seq<ScoredDoc>, text: seq<Document>, h: Hit) {
    || (h.matchType == SemanticMatch
        && exists k :: 0 <= k < |similar| && similar[k].doc == h.doc && similar[k].similarity == h.similarity)
    || (h.matchType == TextMatch && h.similarity == TextSimilarity
        && h.doc in text && !InSemantic(similar, h.doc.id))
  }

  /** The invariant of the insertion-ordered map: one entry per id, each
      sourced. */
  ghost predicate Fused(m: seq<Hit>, similar: seq<ScoredDoc>, text: seq<Document>) {
    && UniqueBy(m, HitId)
    && (forall i :: 0 <= i < |m| ==> Sourced(similar, text, m[i]))
  }

  /** Fusing the semantic hits alone: one entry per distinct id, holding the
      last similarity listed for it (`set` replaces an entry in place). */
  lemma {:induction false} AddSemanticFused(similar: seq<ScoredDoc>)
    ensures var m := AddSemantic([], similar);
      && Fused(m, similar, [])
      && (forall i :: 0 <= i < |m| ==> m[i].matchType == SemanticMatch)
      && (forall id :: HasHit(m, id) <==> InSemantic(similar, id))
  {
    if |similar| > 0 {
      var front := similar[..|similar| - 1];
      AddSemanticFused(front);
      AddSemanticStep(AddSemantic([], front), similar);
      InSemanticSnoc(similar);
    }
  }

  /** One step of the semantic pass keeps the map fused and adds the id of
      the last scored document. */
  lemma AddSemanticStep(m0: seq<Hit>, similar: seq<ScoredDoc>)
    requires |similar| > 0
    requires Fused(m0, similar[..|similar| - 1], [])
    requires forall i :: 0 <= i < |m0| ==> m0[i].matchType == SemanticMatch
    ensures var last := similar[|similar| - 1];
      var m := SetEntry(m0, Hit(last.doc, last.similarity, SemanticMatch));
      && Fused(m, similar, [])
      && (forall i :: 0 <= i < |m| ==> m[i].matchType == SemanticMatch)
      && (forall id :: HasHit(m, id) <==> HasHit(m0, id) || id == last.doc.id)
  {
    var front, last := similar[..|similar| - 1], similar[|similar| - 1];
    var h := Hit(last.doc, last.similarity, SemanticMatch);
    var m := SetEntry(m0, h);
    SetEntryIds(m0, h);
    forall i | 0 <= i < |m| ensures Sourced(similar, [], m[i]) {
      if i < |m0| && m[i] == m0[i] {
        assert Sourced(front, [], m0[i]);
        var k :| 0 <= k < |front| && front[k].doc == m0[i].doc && front[k].similarity == m0[i].similarity;
        assert similar[k] == front[k];
      } else {
        assert m[i] == h;
        assert similar[|similar| - 1].doc == h.doc && similar[|similar| - 1].similarity == h.similarity;
      }
    }
  }

  /** Membership in a growing list of semantic hits. */
  lemma InSemanticSnoc(similar: seq<ScoredDoc>)
    requires |similar| > 0
    ensures forall id :: InSemantic(similar, id) <==> InSemantic(similar[..|similar| - 1], id) || id == similar[|similar| - 1].doc.id
  {
    var front := similar[..|similar| - 1];
    forall id ensures InSemantic(similar, id) <==> InSemantic(front, id) || id == similar[|similar| - 1].doc.id {
      if InSemantic(similar, id) {
        var k :| 0 <= k < |similar| && similar[k].doc.id == id;
        if k < |front| {
          assert front[k].doc.id == id;
        }
      }
      if InSemantic(front, id) {
        var k :| 0 <= k < |front| && front[k].doc.id == id;
        assert similar[k].doc.id == id;
      }
    }
  }

  /** `set` keeps one entry per id and adds exactly the new id. */
  lemma SetEntryIds(m: seq<Hit>, h: Hit)
    requires UniqueBy(m, HitId)
    ensures var r := SetEntry(m, h);
      && UniqueBy(r, HitId)
      && (forall id :: HasHit(r, id) <==> HasHit(m, id) || id == h.doc.id)
      && (forall i :: 0 <= i < |r| ==> (i < |m| && r[i] == m[i]) || r[i] == h)
  {
    var r := SetEntry(m, h);
    match IndexOfId(m, h.doc.id)
    case Some(j) =>
      forall id ensures HasHit(r, id) <==> HasHit(m, id) || id == h.doc.id {
        if HasHit(m, id) {
          var i :| 0 <= i < |m| && m[i].doc.id == id;
          assert r[i].doc.id == id;
        }
        if id == h.doc.id {
          assert r[j].doc.id == id;
        }
      }
    case None =>
      forall id ensures HasHit(r, id) <==> HasHit(m, id) || id == h.doc.id {
        if HasHit(m, id) {
          var i :| 0 <= i < |m| && m[i].doc.id == id;
          assert r[i].doc.id == id;
        }
        if id == h.doc.id {
          assert r[|m|].doc.id == id;
        }
      }
  }

  /** Hits sourced from fewer text documents stay sourced. */
  lemma FusedWiden(m: seq<Hit>, similar: seq<ScoredDoc>, front: seq<Document>, text: seq<Document>)
    requires Fused(m, similar, front)
    requires forall k :: 0 <= k < |front| ==> front[k] in text
    ensures Fused(m, similar, text)
  {
    forall i | 0 <= i < |m| ensures Sourced(similar, text, m[i]) {
      assert Sourced(similar, front, m[i]);
      if m[i].matchType == TextMatch {
        var k :| 0 <= k < |front| && front[k] == m[i].doc;
      }
    }
  }

  /** One step of the text pass keeps the map fused and adds the id of `d`. */
  lemma AddTextStep(m1: seq<Hit>, similar: seq<ScoredDoc>, text: seq<Document>)
    requires |text| > 0
    requires Fused(m1, similar, text[..|text| - 1])
    requires forall id :: HasHit(m1, id) <==> InSemantic(similar, id) || InText(text[..|text| - 1], id)
    requires forall i :: 0 <= i < |m1| && InSemantic(similar, m1[i].doc.id) ==> m1[i].matchType == SemanticMatch
    ensures var d := text[|text| - 1];
      var m := if IndexOfId(m1, d.id).Some? then m1 else m1 + [Hit(d, TextSimilarity, TextMatch)];
      && Fused(m, similar, text)
      && (forall id :: HasHit(m, id) <==> HasHit(m1, id) || id == d.id)
      && (forall i :: 0 <= i < |m| && InSemantic(similar, m[i].doc.id) ==> m[i].matchType == SemanticMatch)
  {
    var front, d := text[..|text| - 1], text[|text| - 1];
    assert forall k :: 0 <= k < |front| ==> front[k] == text[k];
    FusedWiden(m1, similar, front, text);
    if IndexOfId(m1, d.id).None? {
      var h := Hit(d, TextSimilarity, TextMatch);
      var m := m1 + [h];
      assert !HasHit(m1, d.id);
      assert !InSemantic(similar, d.id);
      assert d in text;
      assert Sourced(similar, text, h);
      forall i | 0 <= i < |m| ensures Sourced(similar, text, m[i]) {
        if i < |m1| {
          assert m[i] == m1[i];
        }
      }
      forall id ensures HasHit(m, id) <==> HasHit(m1, id) || id == d.id {
        if HasHit(m1, id) {
          var i :| 0 <= i < |m1| && m1[i].doc.id == id;
          assert m[i].doc.id == id;
        }
        if id == d.id {
          assert m[|m1|].doc.id == id;
        }
      }
    } else {
      assert HasHit(m1, d.id);
    }
  }

  /** Membership in a growing list of text hits. */
  lemma InTextSnoc(text: seq<Document>)
    requires |text| > 0
    ensures forall id :: InText(text, id) <==> InText(text[..|text| - 1], id) || id == text[|text| - 1].id
  {
    var front := text[..|text| - 1];
    forall id ensures InText(text, id) <==> InText(front, id) || id == text[|text| - 1].id {
      if InText(text, id) {
        var k :| 0 <= k < |text| && text[k].id == id;
        if k < |front| {
          assert front[k].id == id;
        }
      }
      if InText(front, id) {
        var k :| 0 <= k < |front| && front[k].id == id;
        assert text[k].id == id;
      }
    }
  }

  /** Fusing text hits after semantic hits: the ids are exactly those of either list, each once. */
  lemma {:induction false} AddTextFused(similar: seq<ScoredDoc>, text: seq<Document>)
    ensures var m := AddText(AddSemantic([], similar), text);
      && Fused(m, similar, text)
      && (forall id :: HasHit(m, id) <==> InSemantic(similar, id) || InText(text, id))
      && (forall i :: 0 <= i < |m| && InSemantic(similar, m[i].doc.id) ==> m[i].matchType == SemanticMatch)
  {
    var m0 := AddSemantic([], similar);
    AddSemanticFused(similar);
    if |text| == 0 {
      FusedWiden(m0, similar, [], text);
    } else {
      var front := text[..|text| - 1];
      AddTextFused(similar, front);
      AddTextStep(AddText(m0, front), similar, text);
      InTextSnoc(text);
    }
  }

  /** The map after both passes, in insertion order. */
  function Combined(similar: seq<ScoredDoc>, text: seq<Document>): (r: seq<Hit>)
    ensures UniqueBy(r, HitId)
    ensures forall h :: h in r ==> Sourced(similar, text, h)
    ensures forall id :: HasHit(r, id) <==> InSemantic(similar, id) || InText(text, id)
    ensures forall h :: h in r && InSemantic(similar, h.doc.id) ==> h.matchType == SemanticMatch
  {
    AddTextFused(similar, text);
    AddText(AddSemantic([], similar), text)
  }

  /** A prefix has no more elements of a given key than the whole. */
  lemma {:induction false} WithKeyPrefix<T>(s: seq<T>, n: nat, key: T -> real, k: real)
    requires n <= |s|
    ensures WithKey(s[..n], key, k) <= WithKey(s, key, k)
  {
    assert s == s[..n] + s[n..];
    WithKeyAppend(s[..n], s[n..], key, k);
  }

  /** Sorting neither adds nor loses an element. */
  lemma SortSameElements<T>(s: seq<T>, key: T -> real)
    ensures forall x :: x in SortDesc(s, key) <==> x in s
  {
    var sorted := SortDesc(s, key);
    forall x ensures x in sorted <==> x in s {
      assert x in sorted <==> x in multiset(sorted);
    }
  }

  /** Nothing past a prefix of a descending sequence ranks above anything in it. */
  lemma PrefixDominates<T>(s: seq<T>, n: nat, key: T -> real)
    requires n <= |s| && NonIncreasing(s, key)
    ensures forall x, y :: x in s && x !in s[..n] && y in s[..n] ==> key(y) >= key(x)
  {
    forall x, y | x in s && x !in s[..n] && y in s[..n] ensures key(y) >= key(x) {
      var j :| 0 <= j < |s| && s[j] == x;
      var i :| 0 <= i < n && s[..n][i] == y;
      assert forall m :: 0 <= m < n ==> s[..n][m] == s[m] && s[..n][m] in s[..n];
      assert i < j;
    }
  }

  /** The first `limit` entries of a stable descending sort: ranked, drawn
      from `s`, each tie class a prefix of the one in `s`, and nothing left
      out ranks above anything kept. */
  lemma TopSorted<T>(s: seq<T>, key: T -> real, limit: Option<int>)
    ensures var r := Slice(SortDesc(s, key), limit);
      && NonIncreasing(r, key)
      && (forall x :: x in r ==> x in s)
      && (forall k :: WithKey(r, key, k) <= WithKey(s, key, k))
      && (forall x, y :: x in s && x !in r && y in r ==> key(y) >= key(x))
  {
    var sorted := SortDesc(s, key);
    var r := Slice(sorted, limit);
    SortSameElements(s, key);
    assert r == sorted[..|r|];
    forall k ensures WithKey(r, key, k) <= WithKey(s, key, k) {
      WithKeyPrefix(sorted, |r|, key, k);
    }
    PrefixDominates(sorted, |r|, key);
  }

  /** A prefix of a sequence with unique ids has unique ids. */
  lemma PrefixUnique(s: seq<Hit>, n: nat)
    requires n <= |s| && UniqueBy(s, HitId)
    ensures UniqueBy(s[..n], HitId)
  {
    assert forall i :: 0 <= i < n ==> s[..n][i] == s[i];
  }

  /** The fused answer: the first `limit` semantic hits and all text hits,
      one per id, ranked by similarity with ties in insertion order, and
      cut to `limit`. */
  function Fuse(similar: seq<ScoredDoc>, text: seq<Document>, limit: Option<int>): (r: seq<Hit>)
    ensures UniqueBy(r, HitId)
    ensures forall h :: h in r ==> Sourced(Slice(similar, limit), text, h)
    ensures forall h :: h in r && InSemantic(Slice(similar, limit), h.doc.id) ==> h.matchType == SemanticMatch
    ensures NonIncreasing(r, HitSimilarity)
    ensures limit.None? ==> r == []
    ensures limit.Some? && limit.value >= 0 ==> |r| <= limit.value
    ensures |r| == SliceEnd(|Combined(Slice(similar, limit), text)|, limit)
    ensures forall k :: WithKey(r, HitSimilarity, k) <= WithKey(Combined(Slice(similar, limit), text), HitSimilarity, k)
    ensures forall h, h' :: h in Combined(Slice(similar, limit), text) && h !in r && h' in r ==> HitSimilarity(h') >= HitSimilarity(h)
  {
    var combined := Combined(Slice(similar, limit), text);
    TopSorted(combined, HitSimilarity, limit);
    TopUnique(combined, limit);
    Slice(SortDesc(combined, HitSimilarity), limit)
  }

  /** The top hits of a list with one hit per id have one hit per id. */
  lemma TopUnique(s: seq<Hit>, limit: Option<int>)
    requires UniqueBy(s, HitId)
    ensures UniqueBy(Slice(SortDesc(s, HitSimilarity), limit), HitId)
  {
    var sorted := SortDesc(s, HitSimilarity);
    SortKeepsUnique(s, HitSimilarity, HitId);
    PrefixUnique(sorted, |Slice(sorted, limit)|);
  }

  /** When everything fits under the limit, nothing is dropped: every id of
      the semantic prefix and of the text hits is answered. */
  lemma FuseComplete(similar: seq<ScoredDoc>, text: seq<Document>, n: int)
    requires n >= 0 && |Combined(Slice(similar, Some(n)), text)| <= n
    ensures forall id :: InSemantic(Slice(similar, Some(n)), id) || InText(text, id) ==> HasHit(Fuse(similar, text, Some(n)), id)
  {
    var combined := Combined(Slice(similar, Some(n)), text);
    var sorted := SortDesc(combined, HitSimilarity);
    assert Fuse(similar, text, Some(n)) == sorted;
    forall id | InSemantic(Slice(similar, Some(n)), id) || InText(text, id) ensures HasHit(sorted, id) {
      var i :| 0 <= i < |combined| && combined[i].doc.id == id;
      assert combined[i] in multiset(sorted);
    }
  }

  // ---------------------------------------------------------------------
  // searchDocuments: the request
  // ---------------------------------------------------------------------

  /** The threshold the controller passes to `findSimilarDocuments`. */
  const SearchThreshold: real := 0.5

  /** Filter-only answer: every fetched document, in fetch order, as a
      filter match of similarity 1.0. */
  function FilterHits(docs: seq<Document>): (r: seq<Hit>)
    ensures |r| == |docs|
    ensures forall i :: 0 <= i < |docs| ==> r[i] == Hit(docs[i], 1.0, FilterMatch)
  {
    seq(|docs|, i requires 0 <= i < |docs| => Hit(docs[i], 1.0, FilterMatch))
  }

  datatype SearchReply = BadRequest(error: SearchError) | Answer(query: string, hits: seq<Hit>)

  /** The embedding, similarity and sine oracles a search runs with. */
  datatype Oracles = Oracles(remote: Option<Embedder>, local: Embedder, sin: int -> real, sqrt: real -> real)

  function SearchFilter(p: SearchParams): Filter {
    Filter(p.category, p.team, p.project)
  }

  /** The embedding a query is searched with: that of the expanded query. */
  function QueryEmbedding(p: SearchParams, o: Oracles): seq<real> {
    GenerateEmbedding(EnhanceSearchQuery(p.query), o.remote, o.local, o.sin)
  }

  /** The semantic candidates of a query: exactly the active stored
      documents matching the filters whose similarity to the expanded
      query's embedding reaches 0.5, each with that similarity, best first. */
  function SemanticHits(s: Store, p: SearchParams, o: Oracles): (r: seq<ScoredDoc>)
    ensures forall x :: x in r <==>
      && x.doc in s.documents && x.doc.isActive && MatchesFilter(x.doc, SearchFilter(p))
      && x.similarity == Similarity(Some(QueryEmbedding(p, o)), Some(x.doc.embedding), o.sqrt)
      && x.similarity >= SearchThreshold
    ensures NonIncreasing(r, SimilarityOf)
  {
    FindSimilarDocuments(Some(QueryEmbedding(p, o)), FindDocuments(s, SearchFilter(p)), SearchThreshold, o.sqrt)
  }

  /** `searchDocuments` against the in-memory store. */
  function Search(s: Store, p: SearchParams, o: Oracles): (r: SearchReply)
    ensures r.BadRequest? <==> p.query == [] && !HasFilter(p)
    ensures r.BadRequest? ==> r.error == NothingToSearch
    ensures r.Answer? && p.query == [] ==> r.query == [] && r.hits == FilterHits(FindDocuments(s, SearchFilter(p)))
    ensures r.Answer? && p.query != [] ==>
      && r.query == EnhanceSearchQuery(p.query)
      && r.hits == Fuse(SemanticHits(s, p, o), TextSearch(s, p.query, SearchFilter(p)), EffectiveLimit(p.limit))
  {
    if p.query == [] && !HasFilter(p) then BadRequest(NothingToSearch)
    else if p.query == [] then Answer([], FilterHits(FindDocuments(s, SearchFilter(p))))
    else
      var hits := Fuse(SemanticHits(s, p, o), TextSearch(s, p.query, SearchFilter(p)), EffectiveLimit(p.limit));
      Answer(EnhanceSearchQuery(p.query), hits)
  }

  /** Every answered document is an active stored document matching every
      supplied filter; no id is answered twice; and each hit is what its
      match type claims: a filter match at 1.0, a semantic match at 0.5 or
      more, or a text match at 0.5 that mentions the query. */
  lemma SearchSound(s: Store, p: SearchParams, o: Oracles)
    requires Search(s, p, o).Answer?
    ensures Valid(s) ==> UniqueBy(Search(s, p, o).hits, HitId)
    ensures forall h :: h in Search(s, p, o).hits ==>
      && h.doc in s.documents && h.doc.isActive && MatchesFilter(h.doc, SearchFilter(p))
      && (h.matchType == FilterMatch ==> p.query == [] && h.similarity == 1.0)
      && (h.matchType == SemanticMatch ==> p.query != [] && h.similarity >= SearchThreshold)
      && (h.matchType == TextMatch ==> p.query != [] && h.similarity == TextSimilarity && Mentions(h.doc, p.query))
  {
    var hits := Search(s, p, o).hits;
    var f := SearchFilter(p);
    if p.query == [] {
      var docs := FindDocuments(s, f);
      forall h | h in hits ensures h.doc in docs && h.matchType == FilterMatch && h.similarity == 1.0 {
        var i :| 0 <= i < |hits| && hits[i] == h;
      }
      if Valid(s) {
        forall i, j | 0 <= i < j < |hits| ensures HitId(hits[i]) != HitId(hits[j]) {
          assert hits[i].doc == docs[i] && hits[j].doc == docs[j];
        }
      }
    } else {
      var similar := SemanticHits(s, p, o);
      var top := Slice(similar, EffectiveLimit(p.limit));
      var text := TextSearch(s, p.query, f);
      forall h | h in hits
        ensures h.doc in s.documents && h.doc.isActive && MatchesFilter(h.doc, f)
        ensures h.matchType != FilterMatch
        ensures h.matchType == SemanticMatch ==> h.similarity >= SearchThreshold
        ensures h.matchType == TextMatch ==> h.similarity == TextSimilarity && Mentions(h.doc, p.query)
      {
        assert Sourced(top, text, h);
        if h.matchType == SemanticMatch {
          var k :| 0 <= k < |top| && top[k].doc == h.doc && top[k].similarity == h.similarity;
          assert top[k] == similar[k];
          assert similar[k] in similar;
        }
      }
    }
  }

  /** As written, an accepted request whose limit `parseInt` cannot read
      (here ".5") is answered with no hits at all, whatever the store holds. */
  lemma HalfLimitAnswersNothing(s: Store, o: Oracles)
    ensures Search(s, SearchParams("brand", Some(".5"), [], [], []), o) == Answer(EnhanceSearchQuery("brand"), [])
    ensures ValidateSearch(SearchParams("brand", Some(".5"), [], [], [])) == Accept
  {
    HalfLimitAccepted();
  }

  /** With the intended validator, every accepted query search has a limit
      from 1 to 100 and returns at most that many hits. */
  lemma StrictSearchBounded(s: Store, p: SearchParams, o: Oracles)
    requires ValidateSearchStrict(p) == Accept
    ensures Search(s, p, o).Answer?
    ensures EffectiveLimit(p.limit).Some? && 1 <= EffectiveLimit(p.limit).value <= 100
    ensures p.query != [] ==> |Search(s, p, o).hits| <= EffectiveLimit(p.limit).value
  {
  }

  // ---------------------------------------------------------------------
  // Response preview
  // ---------------------------------------------------------------------

  const PreviewLength: nat := 200

  /** `content.substring(0, 200) + '...'`. */
  function Preview(content: string): (r: string)
    ensures 3 <= |r| <= PreviewLength + 3
    ensures r[|r| - 3..] == "..."
    ensures r[..|r| - 3] <= content
    ensures |content| <= PreviewLength ==> r == content + "..."
    ensures |content| >= PreviewLength ==> |r| == PreviewLength + 3
  {
    var r := Take(content, PreviewLength) + "...";
    assert r[..|r| - 3] == Take(content, PreviewLength);
    r
  }

  // ---------------------------------------------------------------------
  // Search counts
  // ---------------------------------------------------------------------

  /** Whether a document is among the hits. */
  predicate Returned(hits: seq<Hit>, id: int) {
    exists i :: 0 <= i < |hits| && hits[i].doc.id == id
  }

  /** `updateMany({ _id: { $in: ids } }, { $inc: { searchCount: 1 } })`:
      every returned document counts one more search, nothing else changes. */
  function IncrementSearchCounts(docs: seq<Document>, hits: seq<Hit>): (r: seq<Document>)
    ensures |r| == |docs|
    ensures forall i :: 0 <= i < |docs| && Returned(hits, docs[i].id) ==>
      r[i] == docs[i].(searchCount := docs[i].searchCount + 1)
    ensures forall i :: 0 <= i < |docs| && !Returned(hits, docs[i].id) ==> r[i] == docs[i]
  {
    seq(|docs|, i requires 0 <= i < |docs| =>
      if Returned(hits, docs[i].id) then docs[i].(searchCount := docs[i].searchCount + 1) else docs[i])
  }

  function TotalSearches(docs: seq<Document>): nat {
    if |docs| == 0 then 0 else TotalSearches(docs[..|docs| - 1]) + docs[|docs| - 1].searchCount
  }

  function Ids(docs: seq<Document>): (r: set<int>)
    ensures forall id :: id in r <==> exists i :: 0 <= i < |docs| && docs[i].id == id
  {
    if |docs| == 0 then {}
    else
      var front := docs[..|docs| - 1];
      var r := Ids(front) + {docs[|docs| - 1].id};
      assert forall id :: (exists i :: 0 <= i < |docs| && docs[i].id == id) ==> id in r by {
        forall id | exists i :: 0 <= i < |docs| && docs[i].id == id ensures id in r {
          var i :| 0 <= i < |docs| && docs[i].id == id;
          if i < |front| {
            assert front[i].id == id;
          }
        }
      }
      assert forall id :: id in Ids(front) ==> exists i :: 0 <= i < |docs| && docs[i].id == id by {
        forall id | id in Ids(front) ensures exists i :: 0 <= i < |docs| && docs[i].id == id {
          var i :| 0 <= i < |front| && front[i].id == id;
          assert docs[i].id == id;
        }
      }
      r
  }

  function HitIds(hits: seq<Hit>): (r: set<int>)
    ensures forall id :: id in r <==> Returned(hits, id)
    ensures UniqueBy(hits, HitId) ==> |r| == |hits|
  {
    if |hits| == 0 then {}
    else
      var front := hits[..|hits| - 1];
      var last := hits[|hits| - 1].doc.id;
      ReturnedSnoc(hits);
      assert UniqueBy(hits, HitId) ==> last !in HitIds(front) && UniqueBy(front, HitId) by {
        if UniqueBy(hits, HitId) {
          UniqueSnoc(hits);
        }
      }
      HitIds(front) + {last}
  }

  /** Membership in a growing list of returned hits. */
  lemma ReturnedSnoc(hits: seq<Hit>)
    requires |hits| > 0
    ensures forall id :: Returned(hits, id) <==> Returned(hits[..|hits| - 1], id) || id == hits[|hits| - 1].doc.id
  {
    var front := hits[..|hits| - 1];
    forall id ensures Returned(hits, id) <==> Returned(front, id) || id == hits[|hits| - 1].doc.id {
      if Returned(hits, id) {
        var i :| 0 <= i < |hits| && hits[i].doc.id == id;
        if i < |front| {
          assert front[i].doc.id == id;
        }
      }
      if Returned(front, id) {
        var i :| 0 <= i < |front| && front[i].doc.id == id;
        assert hits[i].doc.id == id;
      }
    }
  }

  /** Without its last hit, a list with one hit per id keeps that property
      and no longer returns the last id. */
  lemma UniqueSnoc(hits: seq<Hit>)
    requires |hits| > 0 && UniqueBy(hits, HitId)
    ensures var front := hits[..|hits| - 1];
      UniqueBy(front, HitId) && !Returned(front, hits[|hits| - 1].doc.id)
  {
    var front := hits[..|hits| - 1];
    forall i | 0 <= i < |front| ensures front[i].doc.id != hits[|hits| - 1].doc.id {
      assert HitId(hits[i]) != HitId(hits[|hits| - 1]);
    }
  }

  /** The number of stored documents whose id is in `ids`. */
  function CountIn(docs: seq<Document>, ids: set<int>): nat {
    if |docs| == 0 then 0
    else CountIn(docs[..|docs| - 1], ids) + (if docs[|docs| - 1].id in ids then 1 else 0)
  }

  /** The search counts grow by one per stored document that was returned. */
  lemma {:induction false} IncrementTotal(docs: seq<Document>, hits: seq<Hit>)
    ensures TotalSearches(IncrementSearchCounts(docs, hits)) == TotalSearches(docs) + CountIn(docs, HitIds(hits))
  {
    if |docs| > 0 {
      var front := docs[..|docs| - 1];
      IncrementTotal(front, hits);
      var r := IncrementSearchCounts(docs, hits);
      assert r[..|r| - 1] == IncrementSearchCounts(front, hits);
    }
  }

  /** With increasing ids, counting stored documents in a set is the size of the set's overlap with the stored ids. */
  lemma {:induction false} CountInDistinct(docs: seq<Document>, ids: set<int>)
    requires IdsIncreasing(docs)
    ensures CountIn(docs, ids) == |ids * Ids(docs)|
  {
    if |docs| > 0 {
      var front := docs[..|docs| - 1];
      var x := docs[|docs| - 1].id;
      IncreasingFront(docs);
      CountInDistinct(front, ids);
      MeetWithNew(ids, Ids(front), x);
      assert Ids(docs) == Ids(front) + {x};
    }
  }

  /** Without its last document, an increasing store stays increasing and
      no longer holds the last id. */
  lemma IncreasingFront(docs: seq<Document>)
    requires |docs| > 0 && IdsIncreasing(docs)
    ensures IdsIncreasing(docs[..|docs| - 1]) && docs[|docs| - 1].id !in Ids(docs[..|docs| - 1])
  {
    var front := docs[..|docs| - 1];
    forall i | 0 <= i < |front| ensures front[i].id != docs[|docs| - 1].id {
      assert front[i] == docs[i];
    }
  }

  /** Adding an element `x` outside `a` adds one to `ids * a` exactly when `x` is in `ids`. */
  lemma MeetWithNew(ids: set<int>, a: set<int>, x: int)
    requires x !in a
    ensures |ids * (a + {x})| == |ids * a| + (if x in ids then 1 else 0)
  {
    if x in ids {
      assert ids * (a + {x}) == (ids * a) + {x};
    } else {
      assert ids * (a + {x}) == ids * a;
    }
  }

  /** Counting one more search for each of a set of distinct hits on
      stored documents adds exactly the number of hits to the total. */
  lemma CountsAddUp(docs: seq<Document>, hits: seq<Hit>)
    requires IdsIncreasing(docs) && UniqueBy(hits, HitId)
    requires forall h :: h in hits ==> h.doc in docs
    ensures TotalSearches(IncrementSearchCounts(docs, hits)) == TotalSearches(docs) + |hits|
  {
    IncrementTotal(docs, hits);
    CountInDistinct(docs, HitIds(hits));
    HitIdsStored(docs, hits);
    assert HitIds(hits) * Ids(docs) == HitIds(hits);
  }

  /** The ids of hits on stored documents are stored ids. */
  lemma HitIdsStored(docs: seq<Document>, hits: seq<Hit>)
    requires forall h :: h in hits ==> h.doc in docs
    ensures HitIds(hits) <= Ids(docs)
  {
    forall id | id in HitIds(hits) ensures id in Ids(docs) {
      var i :| 0 <= i < |hits| && hits[i].doc.id == id;
      assert hits[i] in hits;
      var k :| 0 <= k < |docs| && docs[k] == hits[i].doc;
    }
  }

  /** After a search, the total search count of the store grows by exactly
      the number of documents answered. */
  lemma SearchCountsAddUp(s: Store, p: SearchParams, o: Oracles)
    requires Valid(s) && Search(s, p, o).Answer?
    ensures var hits := Search(s, p, o).hits;
      TotalSearches(IncrementSearchCounts(s.documents, hits)) == TotalSearches(s.documents) + |hits|
  {
    SearchSound(s, p, o);
    CountsAddUp(s.documents, Search(s, p, o).hits);
  }

  // ---------------------------------------------------------------------
  // getContentType
  // ---------------------------------------------------------------------

  const OctetStream := "application/octet-stream"

  function Mime(t: FileType): string {
    match t
    case Pdf => "application/pdf"
    case Docx => "application/vnd.openxmlformats-officedocument.wordprocessingml.document"
    case Txt => "text/plain"
    case Xlsx => "application/vnd.openxmlformats-officedocument.spreadsheetml.sheet"
    case Pptx => "application/vnd.openxmlformats-officedocument.presentationml.presentation"
    case Jpg => "image/jpeg"
    case Jpeg => "image/jpeg"
    case Png => "image/png"
    case Gif => "image/gif"
  }

  /** `getContentType(fileType)`: the MIME type of a listed extension,
      otherwise the generic binary type. */
  function GetContentType(fileType: string): (r: string)
    ensures fileType in FileTypeNames ==> r == Mime(ParseFileType(fileType).value)
    ensures fileType !in FileTypeNames ==> r == OctetStream
  {
    match ParseFileType(fileType)
    case Some(t) => Mime(t)
    case None => OctetStream
  }

  /** Every schema file type is served with its own MIME type, never as a
      generic binary. */
  lemma ContentTypes(t: FileType)
    ensures GetContentType(t.Name()) == Mime(t) && Mime(t) != OctetStream
  {
    FileTypeNameRoundTrip(t);
  }
}
