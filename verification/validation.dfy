/**
 * The request validators that run before the controller, and the status
 * mapping of the error handler. Each validator is a total function from
 * the request fields to a verdict; the checks run in a fixed order and the
 * first failing one names the error. Absent string fields are "" (the
 * validators only test them for truthiness), except `limit`, whose absence
 * and emptiness the controller tells apart.
 */
module Validation {
  import opened Text
  import opened Types
  import opened JsNumber

  /** `next()`, or a 400 answer naming the first failed check. */
  datatype Verdict<E> = Accept | Reject(error: E)

  // ---------------------------------------------------------------------
  // validateSearch
  // ---------------------------------------------------------------------

  datatype SearchParams = SearchParams(query: string, limit: Option<string>, category: string, team: string, project: string)

  datatype SearchError = EmptyQuery | NothingToSearch | QueryTooLong | BadLimit
  {
    function Message(): string {
      match this
      case EmptyQuery => "Search query cannot be empty"
      case NothingToSearch => "Search query or filters required"
      case QueryTooLong => "Search query too long (max 500 characters)"
      case BadLimit => "Limit must be between 1 and 100"
    }
  }

  const MaxQueryLength: nat := 500

  predicate HasFilter(p: SearchParams) {
    p.category != [] || p.team != [] || p.project != []
  }

  /** The limit test as written: a non-empty limit fails when `Number`
      rejects it or when `parseInt` reads a number outside [1, 100]. A
      `parseInt` NaN compares false both ways and so passes. */
  predicate LimitRejected(limit: Option<string>) {
    && limit.Some? && limit.value != []
    && (IsNaN(limit.value) || (ParseInt(limit.value).Some? && (ParseInt(limit.value).value < 1 || ParseInt(limit.value).value > 100)))
  }

  /** `validateSearch`. */
  function ValidateSearch(p: SearchParams): (r: Verdict<SearchError>)
    ensures r == Reject(EmptyQuery) <==> p.query != [] && Trim(p.query) == []
    ensures r == Reject(NothingToSearch) <==> p.query == [] && !HasFilter(p)
    ensures r == Reject(QueryTooLong) <==> Trim(p.query) != [] && |p.query| > MaxQueryLength
    ensures r == Reject(BadLimit) <==>
      (p.query != [] || HasFilter(p)) && (p.query == [] || (Trim(p.query) != [] && |p.query| <= MaxQueryLength))
      && LimitRejected(p.limit)
  {
    if p.query != [] && Trim(p.query) == [] then Reject(EmptyQuery)
    else if p.query == [] && !HasFilter(p) then Reject(NothingToSearch)
    else if p.query != [] && |p.query| > MaxQueryLength then Reject(QueryTooLong)
    else if LimitRejected(p.limit) then Reject(BadLimit)
    else Accept
  }

  /** The limit the controller uses: 20 when the parameter is absent, else
      `parseInt` of it, `None` standing for NaN. */
  function EffectiveLimit(limit: Option<string>): (r: Option<int>)
    ensures limit.None? ==> r == Some(20)
    ensures limit.Some? ==> r == ParseInt(limit.value)
  {
    match limit
    case None => Some(20)
    case Some(s) => ParseInt(s)
  }

  /** Behind a usable query, only the limit test can refuse a request. */
  lemma QueryAcceptedOnLimit(p: SearchParams)
    requires Trim(p.query) != [] && |p.query| <= MaxQueryLength
    ensures ValidateSearch(p) == Accept <==> !LimitRejected(p.limit)
    ensures ValidateSearchStrict(p) == Accept <==> !LimitRejectedStrict(p.limit)
  {
  }

  /** Both limit tests refuse exactly the decimal limits outside [1, 100]. */
  lemma DecimalLimitTests(n: nat)
    ensures LimitRejected(Some(DecimalString(n))) <==> !(1 <= n <= 100)
    ensures LimitRejectedStrict(Some(DecimalString(n))) <==> !(1 <= n <= 100)
  {
    ParseIntDecimalString(n);
    NumberAcceptsDecimalString(n);
  }

  /** Every decimal limit from 1 to 100 passes, and every other decimal
      limit is refused (given an otherwise acceptable request). */
  lemma DecimalLimits(query: string, n: nat)
    requires Trim(query) != [] && |query| <= MaxQueryLength
    ensures var p := SearchParams(query, Some(DecimalString(n)), [], [], []);
      ValidateSearch(p) == Accept <==> 1 <= n <= 100
    ensures EffectiveLimit(Some(DecimalString(n))) == Some(n)
  {
    QueryAcceptedOnLimit(SearchParams(query, Some(DecimalString(n)), [], [], []));
    DecimalLimitTests(n);
    ParseIntDecimalString(n);
  }

  /** An accepted limit that `parseInt` can read lies within [1, 100]. */
  lemma AcceptedLimitInRange(p: SearchParams)
    requires ValidateSearch(p) == Accept
    requires EffectiveLimit(p.limit).Some?
    ensures 1 <= EffectiveLimit(p.limit).value <= 100
  {
    AcceptedLimitPasses(p);
    ParseIntEmpty();
  }

  /** An accepted search has a limit the range test lets through. */
  lemma AcceptedLimitPasses(p: SearchParams)
    requires ValidateSearch(p) == Accept
    ensures !LimitRejected(p.limit)
  {
  }

  /** The query "brand" has no surrounding spaces. */
  lemma QueryBrandAcceptable()
    ensures Trim("brand") == "brand"
  {
    assert !IsSpace('b') && !IsSpace('d');
  }

  /** ".5" is a number to `isNaN` but NaN to `parseInt`. */
  lemma HalfReadByNumberOnly()
    ensures !IsNaN(".5") && ParseInt(".5") == None
  {
    assert !IsSpace('.') && !IsSpace('5');
    assert Trim(".5") == ".5" && TrimStart(".5") == ".5";
    assert Span(".5", IsDecimalDigit) == 0;
    assert ".5"[0..][1..] == "5";
    assert Span("5", IsDecimalDigit) == 1;
    assert IsUnsignedDecimalLiteral(".5");
  }

  /** "Infinity" is a number to `isNaN` but NaN to `parseInt`. */
  lemma InfinityReadByNumberOnly()
    ensures !IsNaN("Infinity") && ParseInt("Infinity") == None
  {
    assert !IsSpace('I') && !IsSpace('y');
    assert Trim("Infinity") == "Infinity" && TrimStart("Infinity") == "Infinity";
    assert IsUnsignedDecimalLiteral("Infinity");
    assert Span("Infinity", IsDecimalDigit) == 0;
  }

  /** As written, the validator lets through ".5": `Number(".5")` is a
      number, but `parseInt(".5")` is NaN, and the controller then slices
      with NaN. */
  lemma HalfLimitAccepted()
    ensures ValidateSearch(SearchParams("brand", Some(".5"), [], [], [])) == Accept
    ensures EffectiveLimit(Some(".5")) == None
  {
    QueryBrandAcceptable();
    HalfReadByNumberOnly();
  }

  /** The same holds for "Infinity". */
  lemma InfinityLimitAccepted()
    ensures ValidateSearch(SearchParams("brand", Some("Infinity"), [], [], [])) == Accept
    ensures EffectiveLimit(Some("Infinity")) == None
  {
    QueryBrandAcceptable();
    InfinityReadByNumberOnly();
  }

  /** An empty limit (`?limit=`) skips the test, and `parseInt("")` is NaN. */
  lemma EmptyLimitAccepted()
    ensures ValidateSearch(SearchParams("brand", Some(""), [], [], [])) == Accept
    ensures EffectiveLimit(Some("")) == None
  {
    QueryBrandAcceptable();
  }

  /** The limit test as evidently intended: any supplied limit must be
      read by `parseInt` as a number within [1, 100]. */
  predicate LimitRejectedStrict(limit: Option<string>) {
    && limit.Some?
    && (IsNaN(limit.value) || ParseInt(limit.value).None?
        || ParseInt(limit.value).value < 1 || ParseInt(limit.value).value > 100)
  }

  /** `validateSearch` with the intended limit test. */
  function ValidateSearchStrict(p: SearchParams): (r: Verdict<SearchError>)
    ensures r.Accept? ==> EffectiveLimit(p.limit).Some? && 1 <= EffectiveLimit(p.limit).value <= 100
    ensures r.Accept? ==> ValidateSearch(p).Accept?
    ensures ValidateSearch(p).Accept? && !r.Accept? ==> r == Reject(BadLimit)
  {
    if p.query != [] && Trim(p.query) == [] then Reject(EmptyQuery)
    else if p.query == [] && !HasFilter(p) then Reject(NothingToSearch)
    else if p.query != [] && |p.query| > MaxQueryLength then Reject(QueryTooLong)
    else if LimitRejectedStrict(p.limit) then Reject(BadLimit)
    else Accept
  }

  /** The intended validator still accepts every decimal limit from 1 to
      100, so the correction only refuses what the controller cannot use. */
  lemma StrictDecimalLimits(query: string, n: nat)
    requires Trim(query) != [] && |query| <= MaxQueryLength
    ensures ValidateSearchStrict(SearchParams(query, Some(DecimalString(n)), [], [], [])) == Accept <==> 1 <= n <= 100
  {
    QueryAcceptedOnLimit(SearchParams(query, Some(DecimalString(n)), [], [], []));
    DecimalLimitTests(n);
  }

  // ---------------------------------------------------------------------
  // validateUpload
  // ---------------------------------------------------------------------

  datatype UploadParams = UploadParams(hasFile: bool, team: string, project: string, category: string)

  datatype UploadError = NoFile | InvalidCategory | BadTeam | BadProject
  {
    function Message(): string {
      match this
      case NoFile => "No file uploaded"
      case InvalidCategory => "Invalid category"
      case BadTeam => "Team name must be between 2 and 50 characters"
      case BadProject => "Project name must be between 2 and 100 characters"
    }
  }

  predicate TeamNameRejected(team: string) { team != [] && (|team| < 2 || |team| > 50) }

  predicate ProjectNameRejected(project: string) { project != [] && (|project| < 2 || |project| > 100) }

  /** `validateUpload`. */
  function ValidateUpload(u: UploadParams): (r: Verdict<UploadError>)
    ensures r == Reject(NoFile) <==> !u.hasFile
    ensures r == Reject(InvalidCategory) <==> u.hasFile && u.category != [] && u.category !in CategoryNames
    ensures r == Reject(BadTeam) <==>
      u.hasFile && (u.category == [] || u.category in CategoryNames) && TeamNameRejected(u.team)
    ensures r == Reject(BadProject) <==>
      u.hasFile && (u.category == [] || u.category in CategoryNames) && !TeamNameRejected(u.team)
      && ProjectNameRejected(u.project)
    ensures r.Accept? ==> u.category == [] || ParseCategory(u.category).Some?
  {
    if !u.hasFile then Reject(NoFile)
    else if u.category != [] && u.category !in CategoryNames then Reject(InvalidCategory)
    else if TeamNameRejected(u.team) then Reject(BadTeam)
    else if ProjectNameRejected(u.project) then Reject(BadProject)
    else Accept
  }

  /** Every one of the eight categories is accepted, with any valid team
      and project lengths, including absent ones. */
  lemma UploadAcceptsCategories(c: Category, team: string, project: string)
    requires team == [] || 2 <= |team| <= 50
    requires project == [] || 2 <= |project| <= 100
    ensures ValidateUpload(UploadParams(true, team, project, c.Name())) == Accept
  {
    CategoryNameRoundTrip(c);
  }

  // ---------------------------------------------------------------------
  // errorHandler
  // ---------------------------------------------------------------------

  /** The fields of a thrown error the handler looks at; "" when absent. */
  datatype AppError = AppError(code: string, name: string, message: string)

  datatype ErrorReply = ErrorReply(status: nat, error: string)

  /** The errors the handler answers with 400. */
  predicate IsClientError(e: AppError) {
    e.code in {"LIMIT_FILE_SIZE", "LIMIT_UNEXPECTED_FILE"} || e.name in {"ValidationError", "CastError"}
  }

  /** `errorHandler`: upload-limit, validation and cast errors are the
      client's (400), everything else is the server's (500). */
  function ErrorHandler(e: AppError): (r: ErrorReply)
    ensures r.status == 400 <==> IsClientError(e)
    ensures r.status == 500 <==> !IsClientError(e)
    ensures e.name == "ValidationError" && e.code !in {"LIMIT_FILE_SIZE", "LIMIT_UNEXPECTED_FILE"} ==> r.error == e.message
    ensures !IsClientError(e) ==> r.error == "Internal server error"
  {
    if e.code == "LIMIT_FILE_SIZE" then ErrorReply(400, "File too large")
    else if e.code == "LIMIT_UNEXPECTED_FILE" then ErrorReply(400, "Unexpected file field")
    else if e.name == "ValidationError" then ErrorReply(400, e.message)
    else if e.name == "CastError" then ErrorReply(400, "Invalid ID format")
    else ErrorReply(500, "Internal server error")
  }
}
