/**
 * The records the backend passes between its layers: the document as the
 * store keeps it, the data an upload produces before an id is assigned,
 * the structured search filter, and the per-query scored hits.
 * The two closed vocabularies of the document schema (category and file
 * type) are datatypes with their wire names.
 */
module Types {

  datatype Option<T> = None | Some(value: T)

  /** The eight document categories, in the order every table of the
      backend lists them. */
  datatype Category = Campaign | Brand | SocialMedia | Email | Content | Analytics | Strategy | Creative
  {
    function Name(): string {
      match this
      case Campaign => "campaign"
      case Brand => "brand"
      case SocialMedia => "social-media"
      case Email => "email"
      case Content => "content"
      case Analytics => "analytics"
      case Strategy => "strategy"
      case Creative => "creative"
    }
  }

  const Categories: seq<Category> :=
    [Campaign, Brand, SocialMedia, Email, Content, Analytics, Strategy, Creative]

  /** The category list of the upload validator and of the document schema. */
  const CategoryNames: seq<string> :=
    ["campaign", "brand", "social-media", "email", "content", "analytics", "strategy", "creative"]

  /** The category whose wire name is `s`, if any. */
  function ParseCategory(s: string): (r: Option<Category>)
    ensures r.Some? <==> s in CategoryNames
    ensures r.Some? ==> r.value.Name() == s
  {
    if s == "campaign" then Some(Campaign)
    else if s == "brand" then Some(Brand)
    else if s == "social-media" then Some(SocialMedia)
    else if s == "email" then Some(Email)
    else if s == "content" then Some(Content)
    else if s == "analytics" then Some(Analytics)
    else if s == "strategy" then Some(Strategy)
    else if s == "creative" then Some(Creative)
    else None
  }

  /** Wire names and categories are in one-to-one correspondence. */
  lemma CategoryNameRoundTrip(c: Category)
    ensures ParseCategory(c.Name()) == Some(c)
    ensures c.Name() in CategoryNames
    ensures c in Categories
  {
  }

  /** The file types the document schema admits. */
  datatype FileType = Pdf | Docx | Txt | Xlsx | Pptx | Jpg | Jpeg | Png | Gif
  {
    function Name(): (r: string)
      ensures |r| >= 3 && forall i :: 0 <= i < |r| ==> 'a' <= r[i] <= 'z'
    {
      match this
      case Pdf => "pdf"
      case Docx => "docx"
      case Txt => "txt"
      case Xlsx => "xlsx"
      case Pptx => "pptx"
      case Jpg => "jpg"
      case Jpeg => "jpeg"
      case Png => "png"
      case Gif => "gif"
    }
  }

  const FileTypeNames: seq<string> := ["pdf", "docx", "txt", "xlsx", "pptx", "jpg", "jpeg", "png", "gif"]

  function ParseFileType(s: string): (r: Option<FileType>)
    ensures r.Some? <==> s in FileTypeNames
    ensures r.Some? ==> r.value.Name() == s
  {
    if s == "pdf" then Some(Pdf)
    else if s == "docx" then Some(Docx)
    else if s == "txt" then Some(Txt)
    else if s == "xlsx" then Some(Xlsx)
    else if s == "pptx" then Some(Pptx)
    else if s == "jpg" then Some(Jpg)
    else if s == "jpeg" then Some(Jpeg)
    else if s == "png" then Some(Png)
    else if s == "gif" then Some(Gif)
    else None
  }

  /** A stored document. Category, team and project are the strings the
      upload stored (the in-memory store does not enforce the schema). */
  datatype Document = Document(
    id: int,
    title: string,
    content: string,
    filePath: string,
    fileType: string,
    fileSize: nat,
    category: string,
    team: string,
    project: string,
    tags: seq<string>,
    embedding: seq<real>,
    searchCount: nat,
    isActive: bool)

  /** What an upload hands to the store: a document without identity. */
  datatype DocData = DocData(
    title: string,
    content: string,
    filePath: string,
    fileType: string,
    fileSize: nat,
    category: string,
    team: string,
    project: string,
    tags: seq<string>,
    embedding: seq<real>)

  /** File type names and file types are in one-to-one correspondence. */
  lemma FileTypeNameRoundTrip(t: FileType)
    ensures ParseFileType(t.Name()) == Some(t)
    ensures t.Name() in FileTypeNames
  {
  }

  /** Structured search filter; "" means the field was not supplied. */
  datatype Filter = Filter(category: string, team: string, project: string)

  datatype MatchType = SemanticMatch | TextMatch | FilterMatch
  {
    function Name(): string {
      match this
      case SemanticMatch => "semantic"
      case TextMatch => "text"
      case FilterMatch => "filter"
    }
  }

  /** One entry of the semantic pass: a document and its cosine similarity. */
  datatype ScoredDoc = ScoredDoc(doc: Document, similarity: real)

  /** One entry of a search answer before it is shaped for the response. */
  datatype Hit = Hit(doc: Document, similarity: real, matchType: MatchType)
}
