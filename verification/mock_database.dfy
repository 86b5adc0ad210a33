/**
 * The in-memory store the backend falls back to when MongoDB is not
 * connected: an append-only document list and the next id to hand out.
 * Every operation is a pure function of the store; saving returns the new
 * store alongside the saved document.
 */
module MockDatabase {
  import opened Text
  import opened Types

  datatype Store = Store(documents: seq<Document>, nextId: int)

  /** The store the service starts with. */
  const Empty: Store := Store([], 1)

  /** Stored ids increase strictly in insertion order. */
  predicate IdsIncreasing(docs: seq<Document>) {
    forall i, j :: 0 <= i < j < |docs| ==> docs[i].id < docs[j].id
  }

  /** The invariant every reachable store keeps: ids increase, start at 1
      and stay below the next id to hand out. */
  predicate Valid(s: Store) {
    && s.nextId >= 1
    && IdsIncreasing(s.documents)
    && forall i :: 0 <= i < |s.documents| ==> 1 <= s.documents[i].id < s.nextId
  }

  /** The store starts valid and empty. */
  lemma EmptyValid()
    ensures Valid(Empty) && Empty.documents == []
  {
  }

  // ---------------------------------------------------------------------
  // saveDocument
  // ---------------------------------------------------------------------

  /** The document a save stores: the data with the next id, active, and
      never searched. */
  function Stamp(data: DocData, id: int): Document {
    Document(id, data.title, data.content, data.filePath, data.fileType, data.fileSize,
      data.category, data.team, data.project, data.tags, data.embedding, 0, true)
  }

  /** `saveDocument(docData)`: appends the data under the next id and
      advances the counter by one. */
  function SaveDocument(s: Store, data: DocData): (r: (Store, Document))
    ensures r.1.id == s.nextId && r.1.isActive
    ensures r.1.title == data.title && r.1.content == data.content && r.1.filePath == data.filePath
    ensures r.1.fileType == data.fileType && r.1.fileSize == data.fileSize && r.1.category == data.category
    ensures r.1.team == data.team && r.1.project == data.project && r.1.tags == data.tags
    ensures r.1.embedding == data.embedding
    ensures r.0.nextId == s.nextId + 1
    ensures r.0.documents == s.documents + [r.1]
    ensures Valid(s) ==> Valid(r.0)
  {
    var doc := Stamp(data, s.nextId);
    (Store(s.documents + [doc], s.nextId + 1), doc)
  }

  /** Saving never disturbs what was stored before, and the saved document
      is the one `findById` then returns for its id. */
  lemma SaveThenFind(s: Store, data: DocData)
    requires Valid(s)
    ensures var (s', doc) := SaveDocument(s, data);
      && (forall i :: 0 <= i < |s.documents| ==> s'.documents[i] == s.documents[i])
      && FindById(s', doc.id) == Some(doc)
      && forall id :: id != doc.id ==> FindById(s', id) == FindById(s, id)
  {
    var (s', doc) := SaveDocument(s, data);
    FindByIdAppend(s.documents, doc);
  }

  // ---------------------------------------------------------------------
  // findDocuments, textSearch
  // ---------------------------------------------------------------------

  /** The documents of `docs` that satisfy `keep`, in their order. */
  function Select(docs: seq<Document>, keep: Document -> bool): (r: seq<Document>)
    ensures |r| <= |docs|
    ensures forall d :: d in r <==> d in docs && keep(d)
    ensures IdsIncreasing(docs) ==> IdsIncreasing(r)
  {
    if |docs| == 0 then []
    else
      var rest := Select(docs[1..], keep);
      assert forall d :: d in docs <==> d == docs[0] || d in docs[1..];
      if keep(docs[0]) then
        assert IdsIncreasing(docs) ==> IdsIncreasing([docs[0]] + rest) by {
          if IdsIncreasing(docs) {
            IncreasingHead(docs);
            IncreasingCons(docs[0], rest);
          }
        }
        [docs[0]] + rest
      else rest
  }

  /** The head of an increasing list is below every later id. */
  lemma IncreasingHead(docs: seq<Document>)
    requires |docs| > 0 && IdsIncreasing(docs)
    ensures IdsIncreasing(docs[1..])
    ensures forall d :: d in docs[1..] ==> docs[0].id < d.id
  {
    assert forall i :: 0 <= i < |docs| - 1 ==> docs[1..][i] == docs[i + 1];
  }

  /** An id below every id of an increasing list may lead it. */
  lemma IncreasingCons(d: Document, rest: seq<Document>)
    requires IdsIncreasing(rest) && forall e :: e in rest ==> d.id < e.id
    ensures IdsIncreasing([d] + rest)
  {
    forall i, j | 0 <= i < j < |rest| + 1 ensures ([d] + rest)[i].id < ([d] + rest)[j].id {
      assert ([d] + rest)[j] == rest[j - 1];
      assert rest[j - 1] in rest;
      if i > 0 {
        assert ([d] + rest)[i] == rest[i - 1];
      }
    }
  }

  /** Selecting twice is selecting once by both conditions. */
  lemma {:induction false} SelectTwice(docs: seq<Document>, p: Document -> bool, q: Document -> bool, both: Document -> bool)
    requires forall d :: both(d) == (p(d) && q(d))
    ensures Select(Select(docs, p), q) == Select(docs, both)
  {
    if |docs| > 0 {
      SelectTwice(docs[1..], p, q, both);
      var rest := Select(docs[1..], p);
      if p(docs[0]) {
        assert ([docs[0]] + rest)[1..] == rest;
      }
    }
  }

  /** A supplied filter field ("" means absent) equals the document's. */
  predicate MatchesFilter(d: Document, f: Filter) {
    && (f.category == [] || d.category == f.category)
    && (f.team == [] || d.team == f.team)
    && (f.project == [] || d.project == f.project)
  }

  predicate Listed(d: Document, f: Filter) {
    d.isActive && MatchesFilter(d, f)
  }

  /** `findDocuments(filter)`: the active documents that match every
      supplied field, in stored order. */
  function FindDocuments(s: Store, f: Filter): (r: seq<Document>)
    ensures forall d :: d in r <==> d in s.documents && d.isActive && MatchesFilter(d, f)
    ensures Valid(s) ==> IdsIncreasing(r)
  {
    Select(s.documents, (d: Document) => Listed(d, f))
  }

  /** Some tag of the document includes `q` (both lowercased). */
  predicate SomeTagMentions(tags: seq<string>, q: string) {
    exists i :: 0 <= i < |tags| && Contains(Lower(tags[i]), q)
  }

  /** The lowercased title, content or some tag includes the lowercased query. */
  predicate Mentions(d: Document, query: string) {
    var q := Lower(query);
    Contains(Lower(d.title), q) || Contains(Lower(d.content), q) || SomeTagMentions(d.tags, q)
  }

  /** `textSearch(query, filter)`: the active documents that mention the
      query and match every supplied filter field, in stored order. */
  function TextSearch(s: Store, query: string, f: Filter): (r: seq<Document>)
    ensures forall d :: d in r <==> d in s.documents && d.isActive && Mentions(d, query) && MatchesFilter(d, f)
    ensures Valid(s) ==> IdsIncreasing(r)
  {
    Select(Select(s.documents, (d: Document) => d.isActive && Mentions(d, query)), (d: Document) => MatchesFilter(d, f))
  }

  /** Text search is `findDocuments` narrowed to the documents that mention
      the query. */
  lemma TextSearchNarrowsFind(s: Store, query: string, f: Filter)
    ensures TextSearch(s, query, f) == Select(FindDocuments(s, f), (d: Document) => Mentions(d, query))
  {
    var both := (d: Document) => d.isActive && Mentions(d, query) && MatchesFilter(d, f);
    SelectTwice(s.documents, (d: Document) => d.isActive && Mentions(d, query), (d: Document) => MatchesFilter(d, f), both);
    SelectTwice(s.documents, (d: Document) => Listed(d, f), (d: Document) => Mentions(d, query), both);
  }

  // ---------------------------------------------------------------------
  // findById
  // ---------------------------------------------------------------------

  /** `docs[i]` is the first document of `docs` with the given id. */
  predicate FirstAt(docs: seq<Document>, id: int, i: int) {
    0 <= i < |docs| && docs[i].id == id && forall j :: 0 <= j < i ==> docs[j].id != id
  }

  /** `findById(id)`: the first stored document with that id, active or not. */
  function FindById(s: Store, id: int): (r: Option<Document>)
    ensures r.None? <==> forall i :: 0 <= i < |s.documents| ==> s.documents[i].id != id
    ensures r.Some? ==> exists i :: FirstAt(s.documents, id, i) && s.documents[i] == r.value
  {
    FirstWithId(s.documents, id)
  }

  function FirstWithId(docs: seq<Document>, id: int): (r: Option<Document>)
    ensures r.None? <==> forall i :: 0 <= i < |docs| ==> docs[i].id != id
    ensures r.Some? ==> exists i :: FirstAt(docs, id, i) && docs[i] == r.value
  {
    if |docs| == 0 then None
    else if docs[0].id == id then
      assert FirstAt(docs, id, 0);
      Some(docs[0])
    else
      var r := FirstWithId(docs[1..], id);
      assert r.Some? ==> exists i :: FirstAt(docs, id, i) && docs[i] == r.value by {
        if r.Some? {
          var i :| FirstAt(docs[1..], id, i) && docs[1..][i] == r.value;
          assert FirstAt(docs, id, i + 1) by {
            forall j | 0 <= j < i + 1 ensures docs[j].id != id {
              if j > 0 {
                assert docs[j] == docs[1..][j - 1];
              }
            }
          }
        }
      }
      r
  }

  /** Appending a document with a fresh, larger id makes it findable and leaves every other lookup alone. */
  lemma {:induction false} FindByIdAppend(docs: seq<Document>, doc: Document)
    requires forall i :: 0 <= i < |docs| ==> docs[i].id < doc.id
    ensures FirstWithId(docs + [doc], doc.id) == Some(doc)
    ensures forall id :: id != doc.id ==> FirstWithId(docs + [doc], id) == FirstWithId(docs, id)
  {
    if |docs| > 0 {
      assert (docs + [doc])[1..] == docs[1..] + [doc];
      FindByIdAppend(docs[1..], doc);
    } else {
      assert docs + [doc] == [doc];
    }
  }

  // ---------------------------------------------------------------------
  // getCategories
  // ---------------------------------------------------------------------

  datatype Count = Count(name: string, count: nat)

  /** Some entry of the tally is for `n`. */
  predicate Lists(tally: seq<Count>, n: string) {
    exists i :: 0 <= i < |tally| && tally[i].name == n
  }

  predicate UniqueNames(tally: seq<Count>) {
    forall i, j :: 0 <= i < j < |tally| ==> tally[i].name != tally[j].name
  }

  /** `tally` lists every name of `names` once, with its number of occurrences. */
  ghost predicate Counts(tally: seq<Count>, names: seq<string>) {
    && UniqueNames(tally)
    && (forall n :: Lists(tally, n) <==> n in names)
    && (forall i :: 0 <= i < |tally| ==> tally[i].count == multiset(names)[tally[i].name])
  }

  /** `counts[name] = (counts[name] || 0) + 1`: adds one to the entry for
      `name`, creating it at the end when absent. */
  function Bump(tally: seq<Count>, name: string): seq<Count> {
    if |tally| == 0 then [Count(name, 1)]
    else if tally[0].name == name then [Count(name, tally[0].count + 1)] + tally[1..]
    else [tally[0]] + Bump(tally[1..], name)
  }

  /** Counting each name in turn into an object keyed by name. */
  function Tally(names: seq<string>): (r: seq<Count>)
    ensures Counts(r, names)
  {
    if |names| == 0 then []
    else
      var front := names[..|names| - 1];
      var last := names[|names| - 1];
      assert names == front + [last];
      BumpCounts(Tally(front), last, front);
      Bump(Tally(front), last)
  }

  /** Bumping a name keeps the tally a faithful count of the names seen. */
  lemma BumpCounts(tally: seq<Count>, name: string, names: seq<string>)
    requires Counts(tally, names)
    ensures Counts(Bump(tally, name), names + [name])
  {
    var r := Bump(tally, name);
    var names' := names + [name];
    BumpNames(tally, name);
    assert multiset(names') == multiset(names) + multiset{name};
    assert |r| == |tally| + 1 ==> name !in names;
    forall i, j | 0 <= i < j < |r| ensures r[i].name != r[j].name {
      if j == |tally| {
        assert r[i].name == tally[i].name;
      }
    }
    forall i | 0 <= i < |r| ensures r[i].count == multiset(names')[r[i].name] {
      BumpAt(tally, name, i);
    }
    forall n ensures Lists(r, n) <==> n in names' {
      if n in names' {
        if n == name {
          if |r| == |tally| {
            var i :| 0 <= i < |tally| && tally[i].name == name;
            assert r[i].name == n;
          } else {
            assert r[|tally|].name == n;
          }
        } else {
          assert Lists(tally, n);
          var i :| 0 <= i < |tally| && tally[i].name == n;
          assert r[i].name == n;
        }
      }
      if Lists(r, n) {
        var i :| 0 <= i < |r| && r[i].name == n;
        if i < |tally| {
          assert Lists(tally, n);
        }
      }
    }
  }

  /** Bumping keeps every name in place and adds `name` at the end when it
      was missing. */
  lemma {:induction false} BumpNames(tally: seq<Count>, name: string)
    ensures var r := Bump(tally, name);
      && (|r| == |tally| || |r| == |tally| + 1)
      && (forall i :: 0 <= i < |tally| ==> r[i].name == tally[i].name)
      && (|r| == |tally| + 1 <==> forall i :: 0 <= i < |tally| ==> tally[i].name != name)
      && (|r| == |tally| + 1 ==> r[|tally|] == Count(name, 1))
  {
    if |tally| > 0 && tally[0].name != name {
      BumpNames(tally[1..], name);
    }
  }

  /** Entry `i` of a bumped tally gains one exactly when it is `name`'s. */
  lemma {:induction false} BumpAt(tally: seq<Count>, name: string, i: int)
    requires UniqueNames(tally)
    requires 0 <= i < |Bump(tally, name)|
    ensures var r := Bump(tally, name);
      && (i < |tally| ==> r[i].count == tally[i].count + (if tally[i].name == name then 1 else 0))
      && (i == |tally| ==> r[i] == Count(name, 1))
  {
    BumpNames(tally, name);
    if |tally| > 0 && tally[0].name != name && i > 0 {
      BumpAt(tally[1..], name, i - 1);
    }
  }

  function Total(tally: seq<Count>): nat {
    if |tally| == 0 then 0 else tally[0].count + Total(tally[1..])
  }

  /** Bumping a name adds one to the tally's total. */
  lemma {:induction false} BumpTotal(tally: seq<Count>, name: string)
    ensures Total(Bump(tally, name)) == Total(tally) + 1
  {
    if |tally| > 0 && tally[0].name != name {
      BumpTotal(tally[1..], name);
    }
  }

  /** The counts of a tally add up to the number of names counted. */
  lemma {:induction false} TallyTotal(names: seq<string>)
    ensures Total(Tally(names)) == |names|
  {
    if |names| > 0 {
      var front := names[..|names| - 1];
      TallyTotal(front);
      BumpTotal(Tally(front), names[|names| - 1]);
    }
  }

  /** The three fields `getCategories` groups by. */
  datatype Field = CategoryField | TeamField | ProjectField
  {
    function Of(d: Document): string {
      match this
      case CategoryField => d.category
      case TeamField => d.team
      case ProjectField => d.project
    }
  }

  datatype Groups = Groups(categories: seq<Count>, teams: seq<Count>, projects: seq<Count>)
  {
    function By(f: Field): seq<Count> {
      match f
      case CategoryField => categories
      case TeamField => teams
      case ProjectField => projects
    }
  }

  function Active(docs: seq<Document>): seq<Document> {
    Select(docs, (d: Document) => d.isActive)
  }

  function Values(docs: seq<Document>, f: Field): (r: seq<string>)
    ensures |r| == |docs|
    ensures forall i :: 0 <= i < |docs| ==> r[i] == f.Of(docs[i])
  {
    seq(|docs|, i requires 0 <= i < |docs| => f.Of(docs[i]))
  }

  /** The field values of a list with a head. */
  lemma ValuesCons(d: Document, rest: seq<Document>, f: Field)
    ensures Values([d] + rest, f) == [f.Of(d)] + Values(rest, f)
  {
  }

  /** Reference count: the active documents whose field `f` is `n`. */
  function ActiveWith(docs: seq<Document>, f: Field, n: string): nat {
    if |docs| == 0 then 0
    else (if docs[0].isActive && f.Of(docs[0]) == n then 1 else 0) + ActiveWith(docs[1..], f, n)
  }

  /** The active documents' values hold each name as often as it occurs among them. */
  lemma {:induction false} ActiveWithMultiplicity(docs: seq<Document>, f: Field, n: string)
    ensures multiset(Values(Active(docs), f))[n] == ActiveWith(docs, f, n)
  {
    if |docs| > 0 {
      ActiveWithMultiplicity(docs[1..], f, n);
      var rest := Active(docs[1..]);
      if docs[0].isActive {
        assert Active(docs) == [docs[0]] + rest;
        ValuesCons(docs[0], rest, f);
      } else {
        assert Active(docs) == rest;
      }
    }
  }

  /** `g` lists each value of field `f` carried by an active document once,
      with the number of active documents carrying it, and nothing else. */
  ghost predicate Grouping(g: seq<Count>, docs: seq<Document>, f: Field) {
    && UniqueNames(g)
    && (forall n :: Lists(g, n) <==> ActiveWith(docs, f, n) > 0)
    && (forall i :: 0 <= i < |g| ==> g[i].count == ActiveWith(docs, f, g[i].name))
  }

  /** One grouping of `getCategories()`: every value of field `f` carried
      by an active document, listed once with the number of active documents
      carrying it. */
  function GroupBy(docs: seq<Document>, f: Field): (r: seq<Count>)
    ensures Grouping(r, docs, f)
  {
    var values := Values(Active(docs), f);
    forall n ensures n in values <==> ActiveWith(docs, f, n) > 0 {
      ActiveWithMultiplicity(docs, f, n);
    }
    forall i | 0 <= i < |Tally(values)| ensures Tally(values)[i].count == ActiveWith(docs, f, Tally(values)[i].name) {
      ActiveWithMultiplicity(docs, f, Tally(values)[i].name);
    }
    Tally(values)
  }

  /** `getCategories()`: the category, team and project groupings. */
  function GetCategories(s: Store): (r: Groups)
    ensures forall f: Field :: Grouping(r.By(f), s.documents, f)
  {
    var r := Groups(GroupBy(s.documents, CategoryField), GroupBy(s.documents, TeamField), GroupBy(s.documents, ProjectField));
    GroupsByField(r, s.documents);
    r
  }

  /** Three groupings, one per field, answer for every field. */
  lemma GroupsByField(g: Groups, docs: seq<Document>)
    requires Grouping(g.categories, docs, CategoryField)
    requires Grouping(g.teams, docs, TeamField)
    requires Grouping(g.projects, docs, ProjectField)
    ensures forall f: Field :: Grouping(g.By(f), docs, f)
  {
    forall f: Field ensures Grouping(g.By(f), docs, f) {
      if f.CategoryField? {
        assert g.By(f) == g.categories;
      } else if f.TeamField? {
        assert g.By(f) == g.teams;
      } else {
        assert g.By(f) == g.projects;
      }
    }
  }

  /** Each grouping's counts add up to the number of active documents. */
  lemma GroupTotals(s: Store, f: Field)
    ensures Total(GetCategories(s).By(f)) == |FindDocuments(s, Filter([], [], []))|
  {
    var active := Active(s.documents);
    SelectTwice(s.documents, (d: Document) => d.isActive, (d: Document) => true, (d: Document) => Listed(d, Filter([], [], [])));
    SelectAll(active, (d: Document) => true);
    TallyTotal(Values(active, f));
    assert GetCategories(s).By(f) == Tally(Values(active, f));
  }

  /** A predicate that keeps everything keeps the list unchanged. */
  lemma {:induction false} SelectAll(docs: seq<Document>, keep: Document -> bool)
    requires forall d :: keep(d)
    ensures Select(docs, keep) == docs
  {
    if |docs| > 0 {
      var rest := docs[1..];
      SelectAll(rest, keep);
      SelectHead(docs, keep);
      assert docs == [docs[0]] + rest;
    }
  }

  /** A kept head stays at the front of the selection. */
  lemma SelectHead(docs: seq<Document>, keep: Document -> bool)
    requires |docs| > 0 && keep(docs[0])
    ensures Select(docs, keep) == [docs[0]] + Select(docs[1..], keep)
  {
  }
}
