/** One feed entry, as the feed parser delivers it and as the pipeline stores
    it, and the steps that turn the first into the second: content selection,
    sanitising, the plain-text summary, the image fallback, date
    normalisation and the id derived from the link. */
module Entry {
  import opened Wrappers
  import opened Text
  import opened DateTime

  /** The `content` field of a parsed entry: absent (or `None`), something
      other than a list, or a list of content variants, each with an optional
      `value`. */
  datatype ContentField = Absent | NotAList | Variants(values: seq<Option<string>>)

  /** A parsed feed entry. Every field may be missing; `title` and `link` are
      read as attributes, so a missing one raises. */
  datatype RawEntry = RawEntry(
    content: ContentField,
    summary: Option<string>,
    title: Option<string>,
    link: Option<string>,
    publishedParsed: Option<TimeTuple>,
    updatedParsed: Option<TimeTuple>)

  /** The record the pipeline emits for one entry (the keys of the JSON object). */
  datatype NormalizedEntry = NormalizedEntry(
    id: string,
    title: string,
    link: string,
    image: string,
    summary: string,
    content: string,
    published: Option<string>,
    hasFullContent: bool)

  /** Why normalising one entry raised. */
  datatype EntryError = MissingLink | InvalidDate(date: TimeTuple) | MissingTitle

  /** The libraries the pipeline calls and whose internals are not modelled:
      the feed parser, the HTML sanitiser, the HTML-to-text conversion, the
      page-image lookup (`extract_image`, which never raises) and the MD5 hex
      digest of a string's UTF-8 encoding. */
  datatype Collaborators = Collaborators(
    parse: (string, map<string, string>) -> FeedResult,
    clean: (string, seq<string>, map<string, seq<string>>, bool) -> string,
    getText: string -> string,
    extractImage: string -> Option<string>,
    md5Hex: string -> string)

  /** What parsing one source gives: an exception raised by the parser, a
      result flagged `bozo`, or the list of entries in feed order. */
  datatype FeedResult = Unreachable | Malformed | Parsed(entries: seq<RawEntry>)

  const UserAgent := "Mozilla/5.0 (Windows NT 10.0; Win64; x64) AppleWebKit/537.36 (KHTML, like Gecko) Chrome/100.0.0.0 Safari/537.36"
  const Headers: map<string, string> := map["User-Agent" := UserAgent]

  const AllowedTags: seq<string> := [
    "p", "b", "i", "em", "strong", "a", "ul", "ol", "li", "br", "img",
    "h1", "h2", "h3", "h4", "h5", "h6", "blockquote", "pre", "code",
    "span", "div"]
  const AllowedAttributes: map<string, seq<string>> := map[
    "*" := ["class", "style"],
    "a" := ["href", "title"],
    "img" := ["src", "alt", "width", "height"]]
  /** Disallowed tags are removed and their text kept. */
  const StripDisallowed := true

  const NoContent := "No hay contenido disponible."
  const FallbackImage := "assets/img/fallback.jpg"
  const SummaryLimit := 300
  const Ellipsis := "..."

  /** Python truthiness of an optional string: present and non-empty. */
  predicate Truthy(s: Option<string>) {
    s.Some? && s.value != ""
  }

  /** The entry carries a full-content variant worth using: `content` is a
      non-empty list whose first variant has a non-empty `value`. */
  predicate HasContentValue(e: RawEntry) {
    e.content.Variants? && |e.content.values| > 0 && Truthy(e.content.values[0])
  }

  /** `extract_content`: the first full-content value, else the summary, else
      the placeholder; never empty. */
  function ExtractContent(e: RawEntry): (r: string)
    ensures r != ""
    ensures HasContentValue(e) ==> r == e.content.values[0].value
    ensures !HasContentValue(e) && Truthy(e.summary) ==> r == e.summary.value
    ensures !HasContentValue(e) && !Truthy(e.summary) ==> r == NoContent
  {
    if HasContentValue(e) then e.content.values[0].value
    else if Truthy(e.summary) then e.summary.value
    else NoContent
  }

  /** The excerpt `extract_summary_text` cuts from plain text: the stripped
      text when it has at most 300 characters, otherwise its first 300
      characters followed by "...". */
  function Excerpt(text: string): (r: string)
    ensures |r| <= SummaryLimit + |Ellipsis|
    ensures |Strip(text)| <= SummaryLimit ==> r == Strip(text)
    ensures |Strip(text)| > SummaryLimit ==>
      |r| == SummaryLimit + |Ellipsis| && r[SummaryLimit..] == Ellipsis
    ensures var n := if |Strip(text)| < SummaryLimit then |Strip(text)| else SummaryLimit;
      r[..n] == Strip(text)[..n]
    ensures |r| > SummaryLimit <==> |Strip(text)| > SummaryLimit
  {
    var t := Strip(text);
    if |t| > SummaryLimit then t[..SummaryLimit] + Ellipsis else t
  }

  /** The two cases of the unit tests (a full-content value wins, and without
      one the summary is used), and the placeholder when both are empty. */
  lemma ExtractContentExamples()
    ensures ExtractContent(RawEntry(Variants([Some("Contenido completo")]), None, None, None, None, None))
         == "Contenido completo"
    ensures ExtractContent(RawEntry(Absent, Some("Un resumen breve."), None, None, None, None))
         == "Un resumen breve."
    ensures ExtractContent(RawEntry(Variants([Some("")]), Some(""), None, None, None, None)) == NoContent
  {
  }

  /** `extract_summary_text`: the excerpt of the HTML's text content. */
  function ExtractSummaryText(html: string, getText: string -> string): (r: string)
    ensures |r| <= SummaryLimit + |Ellipsis|
    ensures |Strip(getText(html))| <= SummaryLimit ==> r == Strip(getText(html))
    ensures |r| > SummaryLimit <==> |Strip(getText(html))| > SummaryLimit
  {
    Excerpt(getText(html))
  }

  /** The `has_full_content` flag: the summary is longer than the limit. */
  predicate HasFullContent(summaryText: string) {
    |summaryText| > SummaryLimit
  }

  /** The flag is set exactly when the page text was cut: then the summary is
      the first 300 characters of the stripped text followed by "...". */
  lemma FullContentMeansTruncated(html: string, getText: string -> string)
    ensures var summary := ExtractSummaryText(html, getText);
      var text := Strip(getText(html));
      && (HasFullContent(summary) <==> |text| > SummaryLimit)
      && (HasFullContent(summary) ==> summary == text[..SummaryLimit] + Ellipsis)
      && (!HasFullContent(summary) ==> summary == text)
  {
  }

  /** The `image` field: the resolved URL when it is present and not all
      whitespace, else the fallback path. Never empty, never blank. */
  function ChooseImage(resolved: Option<string>): (r: string)
    ensures r != "" && !AllSpace(r)
    ensures resolved.Some? && !AllSpace(resolved.value) ==> r == resolved.value
    ensures resolved.None? || AllSpace(resolved.value) ==> r == FallbackImage
  {
    assert FallbackImage[0] == 'a';
    if resolved.Some? && Strip(resolved.value) != "" then resolved.value else FallbackImage
  }

  /** `generate_id`: the hex MD5 digest of the link. */
  function GenerateId(link: string, md5Hex: string -> string): string {
    md5Hex(link)
  }

  /** The id is determined by the link, and distinct links get distinct ids
      whenever the digest has no collision on them. */
  lemma GenerateIdDistinct(link1: string, link2: string, md5Hex: string -> string)
    requires link1 != link2 ==> md5Hex(link1) != md5Hex(link2)
    ensures GenerateId(link1, md5Hex) == GenerateId(link2, md5Hex) <==> link1 == link2
  {
  }

  /** `entry.get("published_parsed") or entry.get("updated_parsed")`: a
      `struct_time` is a non-empty tuple, so present means truthy. */
  function SelectDate(e: RawEntry): (d: Option<TimeTuple>)
    ensures d.None? <==> e.publishedParsed.None? && e.updatedParsed.None?
    ensures e.publishedParsed.Some? ==> d == e.publishedParsed
    ensures e.publishedParsed.None? ==> d == e.updatedParsed
  {
    if e.publishedParsed.Some? then e.publishedParsed else e.updatedParsed
  }

  /** `datetime(*date[:6]).isoformat() if date else None`. The constructor
      raises on an out-of-range field. */
  function NormalizeDate(date: Option<TimeTuple>): (r: Result<Option<string>, EntryError>)
    ensures r.Err? <==> date.Some? && !IsValid(date.value)
    ensures r.Ok? ==> (r.value.None? <==> date.None?)
    ensures r.Ok? && r.value.Some? ==> |r.value.value| == 19 && r.value.value == IsoFormat(date.value)
  {
    match date
    case None => Ok(None)
    case Some(t) => if IsValid(t) then Ok(Some(IsoFormat(t))) else Err(InvalidDate(t))
  }

  /** The entry can be normalised: it has a link and a title, and its date,
      if any, is a valid one. */
  predicate Normalizable(e: RawEntry) {
    && e.link.Some?
    && e.title.Some?
    && (SelectDate(e).Some? ==> IsValid(SelectDate(e).value))
  }

  /** The body of the per-entry loop: build the record for `e`, or raise at the
      first failing step (the link is read first, for the image lookup, then
      the date is converted, then the title is read). */
  function NormalizeEntry(e: RawEntry, env: Collaborators): (r: Result<NormalizedEntry, EntryError>)
    ensures r.Ok? <==> Normalizable(e)
    ensures e.link.None? ==> r == Err(MissingLink)
    ensures e.link.Some? && SelectDate(e).Some? && !IsValid(SelectDate(e).value) ==>
      r == Err(InvalidDate(SelectDate(e).value))
    ensures e.link.Some? && (SelectDate(e).Some? ==> IsValid(SelectDate(e).value)) && e.title.None? ==>
      r == Err(MissingTitle)
  {
    var contentHtml := ExtractContent(e);
    var sanitized := env.clean(contentHtml, AllowedTags, AllowedAttributes, StripDisallowed);
    var summaryText := ExtractSummaryText(sanitized, env.getText);
    var hasFull := HasFullContent(summaryText);
    if e.link.None? then Err(MissingLink)
    else
      var link := e.link.value;
      var image := ChooseImage(env.extractImage(link));
      match NormalizeDate(SelectDate(e))
      case Err(err) => Err(err)
      case Ok(published) =>
        if e.title.None? then Err(MissingTitle)
        else Ok(NormalizedEntry(GenerateId(link, env.md5Hex), e.title.value, link, image,
                                summaryText, sanitized, published, hasFull))
  }

  /** What a record built from `e` holds: the link and title copied, the id
      derived from the link, the sanitised content, the bounded summary of its
      text, the flag set exactly when that text was truncated, the image
      `ChooseImage` picks from the lookup, and a date that is absent exactly when the entry has none. */
  lemma NormalizedRecord(e: RawEntry, env: Collaborators)
    requires NormalizeEntry(e, env).Ok?
    ensures var n := NormalizeEntry(e, env).value;
      && n.link == e.link.value
      && n.title == e.title.value
      && n.id == env.md5Hex(e.link.value)
      && n.content == env.clean(ExtractContent(e), AllowedTags, AllowedAttributes, StripDisallowed)
      && n.summary == Excerpt(env.getText(n.content))
      && |n.summary| <= SummaryLimit + |Ellipsis|
      && (n.hasFullContent <==> |Strip(env.getText(n.content))| > SummaryLimit)
      && n.image == ChooseImage(env.extractImage(e.link.value))
      && (n.published.None? <==> e.publishedParsed.None? && e.updatedParsed.None?)
      && (n.published.Some? ==> n.published == Some(IsoFormat(SelectDate(e).value)))
  {
  }
}
