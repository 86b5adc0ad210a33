# Marketing document search — retrieval and classification core

A Dafny model of the back end of a marketing-document library. Users upload
files and search them. On upload, the server:

- derives the file type from the name;
- picks a category from keyword scores unless one is given;
- guesses the owning team from the upload path;
- extracts up to ten tags;
- computes an embedding vector;
- stores the record.

A search request is validated first: it needs a query or at least one
filter, and the query must be at most 500 characters. The limit test is
meant to accept only limits between 1 and 100, but as written it lets
some limits through that the controller cannot read (see Findings). The controller then does one of two things:

- With filters only, it returns every matching active document.
- With a query, it expands the query with a fixed synonym table. It ranks
  stored documents by cosine similarity to the query's embedding, keeping
  those at 0.5 or above. It adds plain substring matches at a fixed score
  of 0.5, de-duplicates by id, sorts by score and cuts to the limit.

The in-memory store plays the part of the database when none is
connected.

Modules:

- `Types`: the category and file-type vocabularies, with their names.
- `Text`: whitespace as JavaScript's `\s` defines it, ASCII lower-casing, `includes`, `trim`, and the collapse of `\s+` into one space.
- `JsNumber`: `isNaN`, `parseInt` and `slice` on strings and arrays, as ECMA-262 defines them: the StringToNumber grammar of section 7.1.4.1 and `parseInt` of section 19.2.5, plus `Array.prototype.slice`.
- `NodePath`: `path.basename`, `path.extname` and `path.parse(...).name` for POSIX paths.
- `Ranking`: a stable descending insertion sort, as a reference for the engine's stable `Array.prototype.sort`.
- `DocumentProcessor`: text cleaning, categorisation, tag extraction and team detection.
- `AiService`: preprocessing, the 32-bit string hash and mock embedding, the embedding fallback chain, cosine similarity, the similarity ranking, and query expansion.
- `MockDatabase`: the in-memory store — save, find, find by id, text search, and the category, team and project tallies.
- `Validation`: the search and upload validators and the error handler.
- `DocumentController`: the upload defaults, search branching and fusion, previews, search counts, and MIME types.

Calls to code outside the core are parameters of the model:

- the remote and local embedding models (`Embedder`, a partial function);
- `Math.sin` and `Math.sqrt`;
- file content extraction.

## Model

| member | source | states |
|---|---|---|
| Types.ParseCategory | backend/src/middleware/validation.js:33-34 | a string names a category exactly when it is one of the eight valid category names, and the parsed category carries that name |
| Types.CategoryNameRoundTrip | backend/src/services/documentProcessor.js:118-127 | every category's name is a valid category name and parses back to the same category |
| Types.FileTypeNameRoundTrip | backend/src/controllers/documentController.js:366-376 | every file type's name is a key of the content-type table and parses back to that file type |
| Text.CollapseSpaces | backend/src/services/aiService.js:100 | replacing each whitespace run by one space gives a single-spaced string that is empty exactly when the input is, keeps whether each end is whitespace, loses no non-space character, and keeps the words (the maximal runs of non-whitespace) in order |
| Text.CollapseSingleSpaced | backend/src/services/documentProcessor.js:109 | collapsing a string that is already single-spaced leaves it unchanged |
| Text.Trim | backend/src/middleware/validation.js:5 | `trim` leaves no whitespace at either end, removes only whitespace, and keeps a single-spaced string single-spaced |
| Text.TrimIsSlice | backend/src/services/documentProcessor.js:110 | `trim` returns a contiguous slice of its input with only whitespace outside it, so the words are unchanged |
| Text.TrimOfTrimmed | backend/src/services/documentProcessor.js:110 | trimming a string with no whitespace at either end changes nothing |
| Text.JoinWordsOfClean | backend/src/services/documentProcessor.js:109-110 | a single-spaced string with no whitespace at either end is its words joined by single spaces |
| JsNumber.ParseIntDecimalString | backend/src/middleware/validation.js:18 | `parseInt` reads the decimal rendering of every natural number back as that number |
| JsNumber.NumberAcceptsDecimalString | backend/src/middleware/validation.js:18 | `isNaN` is false on the decimal rendering of every natural number |
| JsNumber.ParseIntEmpty | backend/src/middleware/validation.js:18 | `parseInt` of the empty string is NaN |
| JsNumber.Slice | backend/src/controllers/documentController.js:182 | `slice(0, end)` gives a prefix: empty for a NaN end, of length `end` capped at the array length for a non-negative end, and of length `length + end` (at least 0) for a negative end |
| NodePath.LastIndexOf | backend/src/controllers/documentController.js:20 | the index found holds the character and nothing after it does; no index is found exactly when the character is absent |
| NodePath.BaseName | backend/src/controllers/documentController.js:20 | trailing slashes are ignored; the base name is the slash-free suffix after the last slash of what remains, and is empty exactly when the path is all slashes |
| NodePath.BaseNameIgnoresTrailingSlash | backend/src/controllers/documentController.js:20 | a trailing slash does not change the base name |
| NodePath.BaseNameOfPath | backend/src/services/documentProcessor.js:151 | a path `dir/file`, with or without a trailing slash, has base name `file` |
| NodePath.NameExtIgnoreTrailingSlash | backend/src/services/documentProcessor.js:151 | a trailing slash changes neither the name nor the extension |
| NodePath.NameExtSplitBase | backend/src/services/documentProcessor.js:151 | the name and the extension concatenate to the base name; the extension is empty or one dot followed by a dot-free tail; the name is empty only for an empty base name |
| NodePath.SplitAtLastDot | backend/src/controllers/documentController.js:20 | for a non-empty stem and a dot-free extension, the path `stem.ext` has name `stem` and extension `.ext` |
| Ranking.SortDesc | backend/src/services/aiService.js:134 | the result is a permutation of the input, non-increasing in the key, and keeps the input's relative order within each key |
| Ranking.SortKeepsUnique | backend/src/controllers/documentController.js:206-207 | sorting keeps ids unique |
| DocumentProcessor.CleanText | backend/src/services/documentProcessor.js:104-111 | the cleaned text is the input's words (maximal runs of non-whitespace) joined by single spaces; it is single-spaced, has no whitespace at either end, and has exactly the non-space characters of the input, in order |
| DocumentProcessor.CleanTextIdempotent | backend/src/services/documentProcessor.js:104-111 | cleaning a cleaned text changes nothing |
| DocumentProcessor.KeywordScore | backend/src/services/documentProcessor.js:133-136 | the score is zero exactly when no keyword occurs in the lower-cased name or content, and is at most three per keyword |
| DocumentProcessor.KeywordScoreCountsHits | backend/src/services/documentProcessor.js:133-136 | the score is twice the number of keywords the lower-cased name includes plus the number of keywords the lower-cased content includes |
| DocumentProcessor.CategoryScores | backend/src/services/documentProcessor.js:130-137 | one score per category of the table, in table order |
| DocumentProcessor.LastArgMax | backend/src/services/documentProcessor.js:140-142 | the reduce picks an index of maximal score that no later index ties |
| DocumentProcessor.Categorize | backend/src/services/documentProcessor.js:113-145 | the result is `content` when every score is zero; otherwise it has a maximal score and every category after it in the table scores strictly less |
| DocumentProcessor.CategorizeChoosesBest | backend/src/services/documentProcessor.js:140-144 | the last maximal index of the score list, with the `content` default for a zero score, meets the categorisation contract |
| DocumentProcessor.Parts | backend/src/services/documentProcessor.js:152-153 | splitting on runs of `-`, `_` and whitespace gives the maximal separator-free runs, in order: each is non-empty, none holds a separator, and together they are the input with its separators deleted |
| DocumentProcessor.LongPartsLowered | backend/src/services/documentProcessor.js:153-155 | a tag comes from the name exactly when it is the lower-cased form of a part longer than two characters |
| DocumentProcessor.TermsIn | backend/src/services/documentProcessor.js:165-170 | a term is kept exactly when it is a marketing term occurring in the lower-cased content |
| DocumentProcessor.AddAll | backend/src/services/documentProcessor.js:148-155 | adding to an insertion-ordered set keeps it duplicate-free, keeps its existing order as a prefix, and holds exactly the old and new elements |
| DocumentProcessor.AddAllBlocks | backend/src/services/documentProcessor.js:155-170 | file-name tags come first and content tags after them |
| DocumentProcessor.MergeTags | backend/src/services/documentProcessor.js:172 | at most ten distinct tags, all from the two sources, file-name tags ahead of the others, and every candidate kept when fewer than ten come out |
| DocumentProcessor.ExtractTags | backend/src/services/documentProcessor.js:147-173 | at most ten distinct tags drawn from the file name's long parts and the content's marketing terms, name tags first, none dropped unless the cap of ten is reached |
| DocumentProcessor.SplitPath | backend/src/services/documentProcessor.js:176 | splitting on `/` and `\` gives one segment more than there are separators, no segment holds a separator, and the segments rejoined with the separators in order rebuild the path |
| DocumentProcessor.TeamInSegment | backend/src/services/documentProcessor.js:190-194 | the first team in table order whose keyword occurs in the lower-cased segment, or none exactly when no team's keyword does |
| DocumentProcessor.TeamFromSegments | backend/src/services/documentProcessor.js:175-198 | `general` exactly when no segment names a team; otherwise the first team named by the first segment that names any |
| DocumentProcessor.ExtractTeamFromPath | backend/src/services/documentProcessor.js:175-198 | `general` exactly when no segment of the split path names a team; otherwise the first team in table order named by the first segment that names any |
| AiService.Squeezed | backend/src/services/aiService.js:99-102 | after collapsing, filtering and trimming, only word characters, the space and `. , ! ? -` remain, and neither end is a space |
| AiService.KeptWordsAfterCollapse | backend/src/services/aiService.js:100-101 | deleting the unkept characters after collapsing whitespace leaves the same words as deleting them from the raw text |
| AiService.SqueezedWords | backend/src/services/aiService.js:99-102 | before the cut, the words are exactly those of the input once the unkept characters are deleted, in order |
| AiService.SqueezedKeepsContent | backend/src/services/aiService.js:99-102 | before the cut, the non-space characters are exactly the input's kept non-space characters |
| AiService.PreprocessText | backend/src/services/aiService.js:98-104 | at most 512 characters, all from the model alphabet, no leading space, and no trailing space unless the cut at 512 made one |
| AiService.PreprocessKeepsWords | backend/src/services/aiService.js:98-104 | the result is a prefix of the squeezed text; when the cut at 512 did not apply, its words are exactly the input's words once the unkept characters are deleted |
| AiService.PreprocessKeepsContent | backend/src/services/aiService.js:98-104 | the non-space characters of the result are a prefix of the input's kept non-space characters, and all of them when the result is shorter than 512 |
| AiService.PreprocessFixesCleanText | backend/src/services/aiService.js:98-104 | a trimmed, single-spaced text of model characters and at most 512 characters passes through unchanged |
| AiService.ToInt32 | backend/src/services/aiService.js:87 | `hash & hash` yields a signed 32-bit value congruent to its input modulo 2^32 |
| AiService.ToInt32Congruent | backend/src/services/aiService.js:87 | values congruent modulo 2^32 wrap to the same 32-bit integer |
| AiService.HashStepWraps | backend/src/services/aiService.js:86-87 | one step of `((h << 5) - h) + c` on a wrapped value is the wrap of `31 * p + c` |
| AiService.HashIsWrappedPoly | backend/src/services/aiService.js:83-88 | the 32-bit hash equals the unbounded polynomial hash with base 31, wrapped once at the end |
| AiService.HashText | backend/src/services/aiService.js:83-88 | the loop computes the polynomial hash wrapped to a signed 32-bit value |
| AiService.MockEmbedding | backend/src/services/aiService.js:80-96 | 384 entries; entry `i` is half the sine of the wrapped hash plus `i` |
| AiService.MockEmbeddingFromHash | backend/src/services/aiService.js:80-96 | texts with equal hashes get equal mock embeddings, and every entry lies in [-0.5, 0.5] |
| AiService.GenerateEmbedding | backend/src/services/aiService.js:54-78 | the remote model's vector for the preprocessed text if it answers, otherwise the local model's, otherwise the 384-entry mock embedding |
| AiService.Similarity | backend/src/services/aiService.js:106-124 | zero for a missing vector or unequal lengths; otherwise the cosine of the dot product over the two norms `sqrt(a·a)` and `sqrt(b·b)` |
| AiService.Cosine | backend/src/services/aiService.js:122-123 | zero when the magnitude (the product of the norms) is zero; otherwise the value whose product with the magnitude is the dot product |
| AiService.SimilaritySymmetric | backend/src/services/aiService.js:106-124 | the similarity does not depend on the order of its arguments |
| AiService.SimilaritySelfAndOpposite | backend/src/services/aiService.js:106-124 | with an exact square root, a non-zero vector has similarity 1 with itself and -1 with its negation |
| AiService.SimilarityOfNorms | backend/src/services/aiService.js:122-123 | for two vectors of equal squared norm `n`, the similarity is their dot product divided by `n` |
| AiService.ScoreAll | backend/src/services/aiService.js:127-130 | one scored entry per document, in document order, carrying its similarity to the query |
| AiService.AtLeast | backend/src/services/aiService.js:133 | keeps exactly the entries at or above the threshold, each as many times as it occurs |
| AiService.FindSimilarDocuments | backend/src/services/aiService.js:126-135 | an entry is in the result exactly when its document is stored and its similarity is at or above the threshold; the result is a permutation of the filtered scores, non-increasing, and stable within equal scores |
| AiService.ExpansionsFor | backend/src/services/aiService.js:151-155 | the concatenation, in table order, of `" " + expansion` for each key the lowered query includes and nothing for the others; empty exactly when no key occurs, otherwise it starts with a space and contains every occurring key's expansion |
| AiService.EnhanceSearchQuery | backend/src/services/aiService.js:137-158 | the query followed, in table order, by `" " + expansion` for each key its lower-cased form includes; it equals the query exactly when no key occurs |
| MockDatabase.EmptyValid | backend/src/services/mockDatabase.js:3-6 | the store starts empty, with id 1 next, and valid |
| MockDatabase.SaveDocument | backend/src/services/mockDatabase.js:8-18 | the new record takes the next id, is active and carries the given fields; the id counter advances by one, the record is appended, and validity is preserved |
| MockDatabase.SaveThenFind | backend/src/services/mockDatabase.js:8-38 | after a save, earlier records are untouched, the new id finds the new record, and every other id finds what it found before |
| MockDatabase.FindById | backend/src/services/mockDatabase.js:36-38 | the first record with the id, or nothing exactly when no record has it |
| MockDatabase.FindByIdAppend | backend/src/services/mockDatabase.js:36-38 | appending a record with a larger id than all others makes it findable and changes no other lookup |
| MockDatabase.Select | backend/src/services/mockDatabase.js:21-31 | filtering keeps exactly the elements that pass, and keeps ids increasing |
| MockDatabase.SelectTwice | backend/src/services/mockDatabase.js:21-31 | two filters in a row are one filter by their conjunction |
| MockDatabase.FindDocuments | backend/src/services/mockDatabase.js:20-34 | a record is found exactly when it is stored, active and matches every given filter field |
| MockDatabase.TextSearch | backend/src/services/mockDatabase.js:58-78 | a record is found exactly when it is stored, active, mentions the query in its title, content or a tag (case-insensitively), and matches the filter |
| MockDatabase.TextSearchNarrowsFind | backend/src/services/mockDatabase.js:58-78 | text search is the filtered find narrowed to records that mention the query, in the same order |
| MockDatabase.Tally | backend/src/services/mockDatabase.js:45-49 | the tally lists each name once, and counts exactly how often it occurs |
| MockDatabase.TallyTotal | backend/src/services/mockDatabase.js:45-49 | the tally's counts add up to the number of names |
| MockDatabase.GroupBy | backend/src/services/mockDatabase.js:45-55 | each value is listed once, exactly when some active record has it, with the number of active records that have it |
| MockDatabase.GetCategories | backend/src/services/mockDatabase.js:40-56 | the category, team and project groupings each meet the grouping contract |
| MockDatabase.GroupTotals | backend/src/services/mockDatabase.js:40-56 | each grouping's counts add up to the number of active records |
| Validation.ValidateSearch | backend/src/middleware/validation.js:1-23 | each rejection (blank query, nothing to search, query too long, bad limit) happens exactly under its condition, in the source's order of checks |
| Validation.EffectiveLimit | backend/src/controllers/documentController.js:95-182 | an absent limit defaults to 20 (line 95); a given limit is read with `parseInt` (line 182) |
| Validation.QueryAcceptedOnLimit | backend/src/middleware/validation.js:14-20 | with a valid query, the search is accepted exactly when the limit test passes |
| Validation.DecimalLimitTests | backend/src/middleware/validation.js:18 | a decimal limit `n` fails the test exactly when it is outside 1..100 |
| Validation.DecimalLimits | backend/src/middleware/validation.js:18-20 | with a valid query and a decimal limit `n`, the search is accepted exactly when `n` lies in 1..100, and the controller reads the limit as `n` |
| Validation.AcceptedLimitInRange | backend/src/middleware/validation.js:18 | when an accepted limit is readable by `parseInt`, it lies in 1..100 |
| Validation.HalfLimitAccepted | backend/src/middleware/validation.js:18 | the limit `.5` passes validation though `parseInt` cannot read it |
| Validation.InfinityLimitAccepted | backend/src/middleware/validation.js:18 | the limit `Infinity` passes validation though `parseInt` cannot read it |
| Validation.EmptyLimitAccepted | backend/src/middleware/validation.js:18 | an empty limit passes validation, and the controller reads it as NaN |
| Validation.ValidateSearchStrict | backend/src/middleware/validation.js:18 | the corrected limit test accepts only searches whose limit the controller reads as 1..100; it accepts nothing the original rejects and differs from it only by rejecting a bad limit |
| Validation.StrictDecimalLimits | backend/src/middleware/validation.js:18 | the corrected test still accepts a decimal limit exactly when it lies in 1..100 |
| Validation.ValidateUpload | backend/src/middleware/validation.js:25-52 | each rejection (no file, invalid category, bad team length, bad project length) happens exactly under its condition, in the source's order; an accepted category is empty or parses |
| Validation.UploadAcceptsCategories | backend/src/middleware/validation.js:33-49 | every category name is accepted with well-sized team and project names |
| Validation.ErrorHandler | backend/src/middleware/validation.js:54-77 | status 400 exactly for file-size, unexpected-file, validation and cast errors; 500 otherwise with a generic message; a validation error's message is passed through |
| DocumentController.FileTypeOf | backend/src/controllers/documentController.js:20 | the file type never contains a dot and is shorter than the base name unless empty |
| DocumentController.FileTypeOfName | backend/src/controllers/documentController.js:20 | for a name `stem.type` with a known type, the file type is that type's name |
| DocumentController.BuildDocData | backend/src/controllers/documentController.js:20-47 | the record carries the file's name, path, size and content, its tags, and the embedding `generateEmbedding(content)` that later searches compare against; an empty category, team or project is replaced by the categoriser's choice, the path's team or `general` |
| DocumentController.AcceptedUploadCategory | backend/src/controllers/documentController.js:24-40 | after validation, the stored category is a valid category name and the team and project are non-empty |
| DocumentController.IndexOfId | backend/src/controllers/documentController.js:197 | finds a position holding the id, or nothing exactly when the id is absent |
| DocumentController.SetEntryIds | backend/src/controllers/documentController.js:185 | `Map.set` keeps ids unique, adds the id, and changes only the entry it sets or appends |
| DocumentController.AddSemanticFused | backend/src/controllers/documentController.js:182-190 | after the semantic pass, the map holds exactly the ids of the similar documents, each once, as semantic hits |
| DocumentController.AddTextFused | backend/src/controllers/documentController.js:193-204 | after the text pass, the map holds exactly the ids of either list, and a semantic hit is never overwritten |
| DocumentController.Combined | backend/src/controllers/documentController.js:179-204 | the combined map has unique ids, each hit sourced from one of the lists, every id of either list, and the semantic score wherever there is one |
| DocumentController.TopSorted | backend/src/controllers/documentController.js:206-208 | sort-then-slice gives non-increasing elements of the input, each key at most as often, and nothing left out scores above anything kept |
| DocumentController.Fuse | backend/src/controllers/documentController.js:179-208 | the fused result has unique ids and is sorted by score; it holds exactly as many hits as `slice(0, parseInt(limit))` keeps of the combined map (none for a NaN limit, at most `limit`); each key occurs no more often than in the combined map, and no dropped hit outscores a kept one |
| DocumentController.FuseComplete | backend/src/controllers/documentController.js:179-208 | when the combined hits fit under the limit, every semantic or text match is returned |
| DocumentController.FilterHits | backend/src/controllers/documentController.js:136-141 | one filter hit of similarity 1.0 per fetched document, in fetch order |
| DocumentController.SemanticHits | backend/src/controllers/documentController.js:106-134 | a scored document is a semantic hit exactly when it is stored, active, matches the filter, and its similarity to the expanded query's embedding reaches 0.5; the hits are non-increasing in similarity |
| DocumentController.Search | backend/src/controllers/documentController.js:93-208 | a 400 exactly when there is neither a query nor a filter; filters alone answer with every matching document; a query answers with the expanded query and the fusion of semantic and text hits |
| DocumentController.SearchSound | backend/src/controllers/documentController.js:112-208 | every hit is a stored, active document that matches the filter; filter hits score 1.0, semantic hits reach the 0.5 threshold, and text hits score 0.5 and mention the query; ids are unique in a valid store |
| DocumentController.HalfLimitAnswersNothing | backend/src/controllers/documentController.js:182-208 | the query `brand` with limit `.5` passes validation and is answered with no hits, whatever the store holds |
| DocumentController.StrictSearchBounded | backend/src/controllers/documentController.js:182-208 | under the corrected limit test, every accepted query is answered with at most `limit` hits, for a limit in 1..100 |
| DocumentController.Preview | backend/src/controllers/documentController.js:157 | the preview is the first 200 characters of the content, or all of it, followed by `...` |
| DocumentController.IncrementSearchCounts | backend/src/controllers/documentController.js:211-217 | returned documents get one more search; every other document is unchanged |
| DocumentController.CountsAddUp | backend/src/controllers/documentController.js:211-217 | with distinct stored ids and distinct hits, the total search count grows by exactly the number of hits |
| DocumentController.SearchCountsAddUp | backend/src/controllers/documentController.js:206-217 | after any answered search over a valid store, the total search count grows by exactly the number of results |
| DocumentController.GetContentType | backend/src/controllers/documentController.js:365-378 | a known file type maps to its MIME type and anything else to `application/octet-stream` |
| DocumentController.ContentTypes | backend/src/controllers/documentController.js:366-377 | every known file type has its own MIME type, never the fallback |

## Left out

- File content extraction (`backend/src/services/documentProcessor.js:8-102`): PDF, Word, spreadsheet and image readers do file I/O. The extracted content is a parameter of `BuildDocData`.
- The remote and local embedding models: they are network and library calls. They are the `remote` and `local` parameters, and a thrown error is `None`.
- `Math.sin` and `Math.sqrt`: they are floating-point functions. They are uninterpreted parameters, and similarities are exact reals. No rounding is modelled.
- The MongoDB paths of the controller and the store are not modelled:
  - `Document.find` with `.limit(parseInt(limit) * 2)`;
  - the `$text` search with `.limit(parseInt(limit))`;
  - the aggregation.
  The model is the in-memory store the server falls back to.
- DocumentController.IncrementSearchCounts: the source bumps search counts only through MongoDB's `updateMany`. The model states that update over the in-memory records as a separate function, not as a step of `Search`.
- Response shaping is reduced to the hits and the expanded query. This covers `total`, timestamps, `toObject` and the id field names. The preview is modelled separately as `Preview`.
- Timestamps (`createdAt`, `updatedAt`, `metadata`) are not modelled: they come from the clock.
- Ids are integers compared with `==`. The loose `==` of `findById` between a string parameter and a numeric id is not modelled.
- Strings are sequences of UTF-16 code units taken as characters. Lower-casing is ASCII-only. `toLowerCase` also maps non-ASCII letters, so keyword matches on non-ASCII text may differ.
- MockDatabase.GetCategories: the contract does not state the order of the entries. `Object.entries` lists integer-like keys first in numeric order; the model uses first-occurrence order.
- Prototype keys are not modelled. A category or file type such as `constructor` would hit `Object.prototype` in the source's lookup tables.
- Concurrency between requests is not modelled: the store is a value passed through each operation.
- DocumentController.FileTypeOf: its own contract states only the shape of the result. Its value for a name of the form `stem.type` is stated by `FileTypeOfName`.
- DocumentProcessor.ExtractTags: the contract states the order of the two blocks (file-name tags first) and the cap of ten. It does not state the order inside each block.
- AiService.Similarity: the cosine is stated through `Cosine` (`similarity × magnitude = dot product`), with `sqrt` as a parameter. The loop's floating-point sums are exact here.
- AiService.PreprocessText: after the cut at 512 characters, only a prefix of the squeezed text is promised. The number of spaces between two words is not stated either: deleting a character that stood between two spaces (`a @ b`) leaves two spaces (`a  b`), as the source does.
- NodePath.Name: Node's `path.parse('/..')` reports the name `.` and the extension `.`, a quirk of its root handling. The model takes the name and extension from the base name `..`, as `path.extname` does, giving `..` and the empty extension.
- Validation.AcceptedLimitInRange: it gives the range only when `parseInt` reads the limit. See Findings for the limits it cannot read.

Three behaviours of the code worth knowing:

- The categoriser's `reduce` keeps the later category on a tie. `Categorize` states this.
- The filter-only branch returns every matching document; the limit does not apply to it.
- The search count is updated only on the MongoDB path.

## Findings

| source | as written | input that shows it | evidently intended | confidence | as-written member | corrected member |
|---|---|---|---|---|---|---|
| backend/src/middleware/validation.js:18 | the limit test uses `isNaN(limit)`, which accepts `.5`, `Infinity` and the empty string, while the controller reads the limit with `parseInt`, which gives NaN for all three; `slice(0, NaN)` then keeps nothing | `GET /search?query=brand&limit=.5` passes validation and answers with no results | reject every limit that `parseInt` cannot read as an integer in 1..100 | not executed | DocumentController.HalfLimitAnswersNothing | DocumentController.StrictSearchBounded |
| backend/src/middleware/validation.js:18 | an empty limit (`limit=`) skips the test because the empty string is falsy, and the controller's `parseInt("")` is NaN | `GET /search?query=brand&limit=` passes validation with no usable limit | treat an empty limit as absent or reject it | not executed | Validation.EmptyLimitAccepted | Validation.ValidateSearchStrict |
