/** `extract_book_player_args` and `extract_book_chapters`: find the player's constructor
    call in the page, wrap its argument text in brackets so that it reads as a JSON array,
    parse that array and decode it into `BookPlayerArgs`; the chapters are its element 1.

    Parsing JSON text into a value is not part of this model: it is the parameter `parse`,
    which yields `None` exactly when the text is not valid JSON. */
module BookChapters {
  import opened Wrappers
  import opened Json
  import opened PlayerCall
  import opened ChapterDecode

  /** Why no chapters could be extracted, one case per `?` in the source. */
  datatype ChapterError =
    | NoMatchFound                      // the regex does not match the page
    | SyntaxError                       // the bracketed snippet is not JSON
    | SchemaMismatch(reason: SchemaError) // the JSON does not fit `BookPlayerArgs`

  /** `format!("[{}]", snippet)`: the argument list as a JSON array. */
  function Wrap(snippet: string): (w: string)
    ensures |w| == |snippet| + 2 && w[0] == '[' && w[|w| - 1] == ']' && w[1..|w| - 1] == snippet
  {
    "[" + snippet + "]"
  }

  function ExtractBookPlayerArgs(html: string, parse: string -> Option<Value>): (r: Result<BookPlayerArgs, ChapterError>)
    ensures r == Err(NoMatchFound) <==> forall s, c :: !MatchesAt(html, s, c)
  {
    var snippet :- OkOr(Capture(html), NoMatchFound);
    var value :- OkOr(parse(Wrap(snippet)), SyntaxError);
    match DecodePlayerArgs(value)
    case Ok(args) => Ok(args)
    case Err(e) => Err(SchemaMismatch(e))
  }

  /** `extract_book_chapters`: element 1 of the player's arguments, or the same error. */
  function ExtractBookChapters(html: string, parse: string -> Option<Value>): (r: Result<seq<BookChapter>, ChapterError>)
    ensures r.Ok? <==> ExtractBookPlayerArgs(html, parse).Ok?
    ensures r.Ok? ==> r.value == ExtractBookPlayerArgs(html, parse).value.chapters
    ensures r.Err? ==> r.error == ExtractBookPlayerArgs(html, parse).error
  {
    var args :- ExtractBookPlayerArgs(html, parse);
    Ok(args.chapters)
  }

  /** The parser sees only the bracketed capture, and a page whose call fails to parse or
      to fit the schema is reported as such. */
  lemma ParsedTextIsWrappedCapture(html: string, parse: string -> Option<Value>)
    requires ExtractBookPlayerArgs(html, parse) != Err(NoMatchFound)
    ensures Capture(html).Some?
    ensures ExtractBookPlayerArgs(html, parse) == Err(SyntaxError) <==> parse(Wrap(Capture(html).value)).None?
    ensures parse(Wrap(Capture(html).value)).Some? ==>
              var decoded := DecodePlayerArgs(parse(Wrap(Capture(html).value)).value);
              (decoded.Ok? ==> ExtractBookPlayerArgs(html, parse) == Ok(decoded.value)) &&
              (decoded.Err? ==> ExtractBookPlayerArgs(html, parse) == Err(SchemaMismatch(decoded.error)))
  {
  }

  /** Every chapter returned is the decoding of the element at the same position of the
      second constructor argument, and there are as many chapters as elements. */
  lemma ChaptersAreSecondArgument(html: string, parse: string -> Option<Value>)
    requires ExtractBookChapters(html, parse).Ok?
    ensures Capture(html).Some? && parse(Wrap(Capture(html).value)).Some?
    ensures var v := parse(Wrap(Capture(html).value)).value;
            var chapters := ExtractBookChapters(html, parse).value;
            && v.Array? && |v.items| == 8 && v.items[1].Array?
            && |chapters| == |v.items[1].items|
            && forall i :: 0 <= i < |chapters| ==> DecodeChapter(v.items[1].items[i]) == Ok(chapters[i])
  {
    ParsedTextIsWrappedCapture(html, parse);
  }

  /** A page holding one constructor call whose arguments are the JSON encoding of `args`
      yields exactly `args` back. */
  lemma CallRoundTrip(argsText: string, args: BookPlayerArgs, parse: string -> Option<Value>)
    requires '\n' !in argsText
    requires parse(Wrap(argsText)) == Some(EncodePlayerArgs(args))
    ensures ExtractBookPlayerArgs(Prefix + argsText + Close, parse) == Ok(args)
    ensures ExtractBookChapters(Prefix + argsText + Close, parse) == Ok(args.chapters)
  {
    WholeCallCapture(argsText);
    PlayerArgsRoundTrip(args);
  }

  // The cases the source's own unit test checks, plus the greedy over-capture. The page
  // text is written as `Prefix + arguments + Close`, that is `var player = new
  // BookPlayer(` followed by the arguments and `);`.

  /** An empty page has no player call. */
  lemma EmptyPageHasNoCall(parse: string -> Option<Value>)
    ensures ExtractBookPlayerArgs("", parse) == Err(NoMatchFound)
  {
  }

  /** A call with eight arguments and an empty chapter list decodes to no chapters. */
  lemma EmptyChapterListExample(parse: string -> Option<Value>)
    requires parse(Wrap("1, [], [], [], 2, 3, 4, 5")) ==
               Some(Array([Number(1.0), Array([]), Array([]), Array([]),
                           Number(2.0), Number(3.0), Number(4.0), Number(5.0)]))
    ensures ExtractBookChapters(Prefix + "1, [], [], [], 2, 3, 4, 5" + Close, parse) == Ok([])
  {
    assert EncodeChapterList([]) == [];
    CallRoundTrip("1, [], [], [], 2, 3, 4, 5",
                  BookPlayerArgs(Number(1.0), [], [], [], Number(2.0), Number(3.0), Number(4.0), Number(5.0)),
                  parse);
  }

  /** A call whose chapter list holds one chapter object yields that chapter. The
      arguments are `1, [{"duration_float":1, "title":"ttl", "url":"url://"}], [], [], 2, 3,
      4, 5`, written below field by field. */
  lemma OneChapterExample(parse: string -> Option<Value>)
    requires var argsText := "1, [{" + "\"duration_float\":1, " + "\"title\":\"ttl\", " + "\"url\":\"url://\"}]" + ", [], [], 2, 3, 4, 5";
             parse(Wrap(argsText)) ==
               Some(Array([Number(1.0),
                           Array([Object([Member("duration_float", Number(1.0)),
                                          Member("title", Str("ttl")),
                                          Member("url", Str("url://"))])]),
                           Array([]), Array([]), Number(2.0), Number(3.0), Number(4.0), Number(5.0)]))
    ensures var argsText := "1, [{" + "\"duration_float\":1, " + "\"title\":\"ttl\", " + "\"url\":\"url://\"}]" + ", [], [], 2, 3, 4, 5";
            ExtractBookChapters(Prefix + argsText + Close, parse) == Ok([BookChapter(1.0, "ttl", "url://")])
  {
    var c := BookChapter(1.0, "ttl", "url://");
    assert EncodeChapterList([c]) == [EncodeChapter(c)];
    OneChapterArgumentsOnOneLine();
    CallRoundTrip("1, [{" + "\"duration_float\":1, " + "\"title\":\"ttl\", " + "\"url\":\"url://\"}]" + ", [], [], 2, 3, 4, 5",
                  BookPlayerArgs(Number(1.0), [c], [], [], Number(2.0), Number(3.0), Number(4.0), Number(5.0)),
                  parse);
  }

  lemma OneChapterArgumentsOnOneLine()
    ensures '\n' !in "1, [{" + "\"duration_float\":1, " + "\"title\":\"ttl\", " + "\"url\":\"url://\"}]" + ", [], [], 2, 3, 4, 5"
  {
    assert '\n' !in "1, [{" && '\n' !in "\"duration_float\":1, " && '\n' !in "\"title\":\"ttl\", ";
    assert '\n' !in "\"url\":\"url://\"}]" && '\n' !in ", [], [], 2, 3, 4, 5";
  }

  /** The greedy group runs to the last `);` of the line, so a statement after the call is
      swallowed and the bracketed snippet is no longer JSON. */
  lemma TrailingStatementExample(parse: string -> Option<Value>)
    requires parse(Wrap("1); f(2")) == None
    ensures Capture(Prefix + "1); f(2" + Close) == Some("1); f(2")
    ensures ExtractBookChapters(Prefix + "1); f(2" + Close, parse) == Err(SyntaxError)
  {
    WholeCallCapture("1); f(2");
  }
}
