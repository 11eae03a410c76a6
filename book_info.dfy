/** `extract_book_info`: six fixed lookups into the parsed page, each required. The first
    absent field, in source order, fails the whole extraction with that field's message;
    no partly filled record is ever returned. */
module BookInfoExtraction {
  import opened Wrappers
  import opened Text
  import opened Document

  /** `BookInfo`. `series` is optional in the record, yet the extractor requires it. */
  datatype BookInfo = BookInfo(
    title: string,
    author: string,
    series: Option<string>,
    genre: string,
    reader: string,
    coverUrl: string)

  /** The six fields, in the order `extract_book_info` looks them up. */
  datatype Field = Title | Author | Series | Genre | Reader | Cover

  /** The CSS selector each field is read from. */
  function Selector(f: Field): string {
    match f
    case Title => "span.book_title_name"
    case Author => "span.book_title_elem > span[itemprop=author] > a"
    case Series => "div.book_serie_block_title > a"
    case Genre => "div.book_genre_pretitle > a"
    case Reader => "span.book_title_elem > a"
    case Cover => "div.book_cover > img"
  }

  /** The cover is the one field read from an attribute rather than the content. */
  function CoverAttribute(): string { "src" }

  function ExtractBookInfo(doc: Html): (r: Result<BookInfo, Field>)
    ensures r.Ok? ==> r.value.series.Some?
  {
    var title :- OkOr(GetNodeContent(doc, Selector(Title)), Title);
    var author :- OkOr(GetNodeContent(doc, Selector(Author)), Author);
    var series :- OkOr(GetNodeContent(doc, Selector(Series)), Series);
    var genre :- OkOr(GetNodeContent(doc, Selector(Genre)), Genre);
    var reader :- OkOr(GetNodeContent(doc, Selector(Reader)), Reader);
    var coverUrl :- OkOr(GetNodeAttribute(doc, Selector(Cover), CoverAttribute()), Cover);
    Ok(BookInfo(title, author, Some(series), genre, reader, coverUrl))
  }

  // An independent statement of the same contract: the six fields in the order the
  // extractor looks them up, each with its lookup and the message of its absence.

  /** The position of a field's lookup in `extract_book_info`. */
  function Rank(f: Field): nat {
    match f
    case Title => 0
    case Author => 1
    case Series => 2
    case Genre => 3
    case Reader => 4
    case Cover => 5
  }

  /** The lookup of one field, as `extract_book_info` performs it. */
  function Run(doc: Html, f: Field): Option<string> {
    match f
    case Cover => GetNodeAttribute(doc, Selector(Cover), CoverAttribute())
    case _ => GetNodeContent(doc, Selector(f))
  }

  function Missing(f: Field): string {
    match f
    case Title => "No title"
    case Author => "No author"
    case Series => "No series"
    case Genre => "No genre"
    case Reader => "No reader"
    case Cover => "No cover"
  }

  /** `f` is the first field, in lookup order, whose lookup finds nothing. */
  predicate FirstAbsent(doc: Html, f: Field) {
    && Run(doc, f).None?
    && (Rank(f) > 0 ==> Run(doc, Title).Some?)
    && (Rank(f) > 1 ==> Run(doc, Author).Some?)
    && (Rank(f) > 2 ==> Run(doc, Series).Some?)
    && (Rank(f) > 3 ==> Run(doc, Genre).Some?)
    && (Rank(f) > 4 ==> Run(doc, Reader).Some?)
  }

  /** Every lookup finds something. */
  predicate AllPresent(doc: Html) {
    && Run(doc, Title).Some? && Run(doc, Author).Some? && Run(doc, Series).Some?
    && Run(doc, Genre).Some? && Run(doc, Reader).Some? && Run(doc, Cover).Some?
  }

  /** The first absent field is the one whose message the extraction reports. */
  lemma FirstAbsentIsReported(doc: Html, f: Field)
    requires FirstAbsent(doc, f)
    ensures ExtractBookInfo(doc) == Err(f)
  {
    match f
    case Title =>
      assert Run(doc, Title).None?;
    case Author =>
      assert Run(doc, Title).Some?;
      assert Run(doc, Author).None?;
    case Series =>
      assert Run(doc, Title).Some? && Run(doc, Author).Some?;
      assert Run(doc, Series).None?;
    case Genre =>
      assert Run(doc, Title).Some? && Run(doc, Author).Some? && Run(doc, Series).Some?;
      assert Run(doc, Genre).None?;
    case Reader =>
      assert Run(doc, Title).Some? && Run(doc, Author).Some? && Run(doc, Series).Some?;
      assert Run(doc, Genre).Some?;
      assert Run(doc, Reader).None?;
    case Cover =>
      assert Run(doc, Title).Some? && Run(doc, Author).Some? && Run(doc, Series).Some?;
      assert Run(doc, Genre).Some? && Run(doc, Reader).Some?;
      assert Run(doc, Cover).None?;
  }

  /** When some lookup finds nothing, one of them is the first to do so. */
  lemma FirstAbsentExists(doc: Html) returns (f: Field)
    requires !AllPresent(doc)
    ensures FirstAbsent(doc, f)
  {
    f := if Run(doc, Title).None? then Title
      else if Run(doc, Author).None? then Author
      else if Run(doc, Series).None? then Series
      else if Run(doc, Genre).None? then Genre
      else if Run(doc, Reader).None? then Reader
      else Cover;
  }

  /** When every lookup finds something, the record holds what they found. */
  lemma AllPresentIsExtracted(doc: Html)
    requires AllPresent(doc)
    ensures ExtractBookInfo(doc) == Ok(BookInfo(
              Run(doc, Title).value, Run(doc, Author).value, Some(Run(doc, Series).value),
              Run(doc, Genre).value, Run(doc, Reader).value, Run(doc, Cover).value))
  {
  }

  /** The extraction succeeds exactly when all six lookups find something, and then the
      record holds what they found, with `series` wrapped in `Some`. */
  lemma ExtractBookInfoSucceeds(doc: Html)
    ensures ExtractBookInfo(doc).Ok? <==> AllPresent(doc)
    ensures ExtractBookInfo(doc).Ok? ==>
              ExtractBookInfo(doc).value == BookInfo(
                Run(doc, Title).value, Run(doc, Author).value, Some(Run(doc, Series).value),
                Run(doc, Genre).value, Run(doc, Reader).value, Run(doc, Cover).value)
  {
    if AllPresent(doc) {
      AllPresentIsExtracted(doc);
    } else {
      var f := FirstAbsentExists(doc);
      FirstAbsentIsReported(doc, f);
    }
  }

  /** Every text field of an extracted record comes out of `str::trim`; only the cover URL
      is taken verbatim. */
  lemma ExtractedTextIsTrimmed(doc: Html)
    requires ExtractBookInfo(doc).Ok?
    ensures var info := ExtractBookInfo(doc).value;
            && Trimmed(info.title) && Trimmed(info.author) && Trimmed(info.series.value)
            && Trimmed(info.genre) && Trimmed(info.reader)
  {
    ExtractBookInfoSucceeds(doc);
  }

  /** A failed extraction reports the message of the first field, in lookup order, whose
      lookup found nothing. */
  lemma ExtractBookInfoFails(doc: Html)
    ensures ExtractBookInfo(doc).Err? ==>
              exists f :: FirstAbsent(doc, f) && ExtractBookInfo(doc).error == f
  {
    ExtractBookInfoSucceeds(doc);
    if ExtractBookInfo(doc).Err? {
      var f := FirstAbsentExists(doc);
      FirstAbsentIsReported(doc, f);
    }
  }

  /** Required-field atomicity, one field at a time: a page on which only field `f` is
      absent fails with exactly that field's message. */
  lemma OnlyMissingFieldIsReported(doc: Html, f: Field)
    requires Run(doc, f).None?
    requires forall g :: g != f ==> Run(doc, g).Some?
    ensures ExtractBookInfo(doc) == Err(f)
  {
    assert FirstAbsent(doc, f) by {
      assert Run(doc, Title).Some? || f == Title;
      assert Run(doc, Author).Some? || f == Author;
      assert Run(doc, Series).Some? || f == Series;
      assert Run(doc, Genre).Some? || f == Genre;
      assert Run(doc, Reader).Some? || f == Reader;
    }
    FirstAbsentIsReported(doc, f);
  }
}
