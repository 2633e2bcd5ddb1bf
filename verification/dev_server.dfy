/**
 * The upload handler of the development server (dev-server.js, `POST /api/analyze`), up to
 * the request it sends to the model and the events it returns.
 *
 * An uploaded PDF with a page selection is replaced by a PDF of the selected pages, when the
 * selection names at least one page. Every other upload, or its absence, is forwarded as it
 * came. The request to the model lists the file, if any, before the prompt. The events of the
 * model's answer default to an empty list.
 */
module DevServer {
  import opened Results
  import opened JsString
  import opened PdfProcessor

  /** An uploaded file as the upload middleware hands it over. */
  datatype UploadedFile = UploadedFile(fieldname: string, originalname: string, encoding: string,
                                       mimetype: string, buffer: seq<Byte>, size: nat)

  /** One entry of the request to the model: the file's bytes with their type, or the prompt. */
  datatype ContentPart = InlineData(data: seq<Byte>, mimeType: string) | Prompt(text: string)

  const PdfType := "application/pdf"

  /** `field || ''` for a form field: a missing field reads as the empty string. */
  function OrEmpty(field: Option<string>): string
  {
    if field.Some? then field.value else ""
  }

  /** `parsedResponse.events || []`: the events of the answer, or none when it has no list. */
  function EventsOrEmpty<E>(events: Option<seq<E>>): seq<E>
  {
    if events.Some? then events.value else []
  }

  /**
   * The handler's decision to cut the upload: it is a PDF, the page selection is not blank,
   * and parsing the selection gives a non-empty list.
   */
  predicate Subsets(file: Option<UploadedFile>, pdfPages: string)
  {
    file.Some? && file.value.mimetype == PdfType && Trim(pdfPages) != "" &&
    var selection := PageSelection(Some(pdfPages));
    selection.Some? && |selection.value| > 0
  }

  /**
   * The file forwarded to the model: when the handler cuts the upload, the upload with its
   * buffer replaced by the saved page subset and its size by that buffer's length; otherwise
   * the upload as it came. A PDF that does not load is an error.
   */
  function Forwarded(file: Option<UploadedFile>, pdfPages: string,
                     load: seq<Byte> -> Option<seq<Page>>, save: seq<Page> -> seq<Byte>)
    : Result<Option<UploadedFile>, PdfError>
  {
    if !Subsets(file, pdfPages) then Success(file)
    else
      var src := load(file.value.buffer);
      if src.None? then Failure(InvalidPdf)
      else
        var out := save(PagesAt(src.value, PageSelection(Some(pdfPages)).value));
        Success(Some(file.value.(buffer := out, size := |out|)))
  }

  /** The pages of a loaded PDF, opaque to the handler. */
  type Page(==)

  /**
   * The page-subset step of the handler: parses the selection of a PDF upload and, when it
   * names pages, replaces the upload by a copy carrying the extracted pages.
   */
  method SelectFile(file: Option<UploadedFile>, pdfPages: string,
                    load: seq<Byte> -> Option<seq<Page>>, save: seq<Page> -> seq<Byte>)
    returns (r: Result<Option<UploadedFile>, PdfError>)
    ensures r == Forwarded(file, pdfPages, load, save)
  {
    r := Success(file);
    if file.Some? && file.value.mimetype == PdfType && Trim(pdfPages) != "" {
      var pageIndices := ParsePageNumbers(Some(pdfPages));
      if pageIndices.Some? && |pageIndices.value| > 0 {
        var processed := ExtractPdfPages(file.value.buffer, pageIndices, load, save);
        if processed.Failure? {
          return Failure(processed.error);
        }
        r := Success(Some(file.value.(buffer := processed.value, size := |processed.value|)));
      }
    }
  }

  /**
   * The `contents` list sent to the model: the forwarded file's bytes and type first, when
   * there is a file, and the prompt last.
   */
  method BuildContents(file: Option<UploadedFile>, prompt: string) returns (contents: seq<ContentPart>)
    ensures |contents| == if file.Some? then 2 else 1
    ensures contents[|contents| - 1] == Prompt(prompt)
    ensures file.Some? ==> contents[0] == InlineData(file.value.buffer, file.value.mimetype)
  {
    contents := [];
    if file.Some? {
      contents := contents + [InlineData(file.value.buffer, file.value.mimetype)];
    }
    contents := contents + [Prompt(prompt)];
  }

  /**
   * What the handler sends to the model for an upload and the `text` and `pdfPages` fields,
   * with `getPrompt` building the prompt from the text; a PDF that does not load is an error.
   */
  function RequestContents(file: Option<UploadedFile>, text: Option<string>, pdfPages: Option<string>,
                           load: seq<Byte> -> Option<seq<Page>>, save: seq<Page> -> seq<Byte>,
                           getPrompt: string -> string)
    : Result<seq<ContentPart>, PdfError>
  {
    var forwarded := Forwarded(file, OrEmpty(pdfPages), load, save);
    if forwarded.Failure? then Failure(forwarded.error)
    else
      var f := forwarded.value;
      Success((if f.Some? then [InlineData(f.value.buffer, f.value.mimetype)] else []) +
              [Prompt(getPrompt(OrEmpty(text)))])
  }

  /** The handler up to the model call: defaults the fields, decides on the file, builds `contents`. */
  method AnalyzeRequest(file: Option<UploadedFile>, text: Option<string>, pdfPages: Option<string>,
                        load: seq<Byte> -> Option<seq<Page>>, save: seq<Page> -> seq<Byte>,
                        getPrompt: string -> string)
    returns (r: Result<seq<ContentPart>, PdfError>)
    ensures r == RequestContents(file, text, pdfPages, load, save, getPrompt)
  {
    var theText := OrEmpty(text);
    var thePages := OrEmpty(pdfPages);
    var forwarded := SelectFile(file, thePages, load, save);
    if forwarded.Failure? {
      return Failure(forwarded.error);
    }
    var contents := BuildContents(forwarded.value, getPrompt(theText));
    var expected := (if forwarded.value.Some? then [InlineData(forwarded.value.value.buffer, forwarded.value.value.mimetype)] else []) +
                    [Prompt(getPrompt(theText))];
    assert contents == expected;
    return Success(contents);
  }

  // ---------------------------------------------------------------------------------------
  // Properties of the decision

  /**
   * The blank-selection test is implied by the parse: the upload is cut exactly when it is a
   * PDF and its selection parses to a non-empty list.
   */
  lemma SubsetsIff(file: Option<UploadedFile>, pdfPages: string)
    ensures Subsets(file, pdfPages) <==>
      file.Some? && file.value.mimetype == PdfType &&
      PageSelection(Some(pdfPages)).Some? && |PageSelection(Some(pdfPages)).value| > 0
  {
  }

  /** Unless the handler cuts the upload, the upload, or its absence, is forwarded as it came. */
  lemma UnchangedUnlessSubset(file: Option<UploadedFile>, pdfPages: string,
                              load: seq<Byte> -> Option<seq<Page>>, save: seq<Page> -> seq<Byte>)
    requires !Subsets(file, pdfPages)
    ensures Forwarded(file, pdfPages, load, save) == Success(file)
  {
  }

  /**
   * An upload that is not a PDF, or whose selection parses to no list or an empty one, reaches
   * the model as it came: its bytes and type first, then the prompt; no upload, the prompt alone.
   */
  lemma UnselectedUploadSent(file: Option<UploadedFile>, text: Option<string>, pdfPages: Option<string>,
                             load: seq<Byte> -> Option<seq<Page>>, save: seq<Page> -> seq<Byte>,
                             getPrompt: string -> string)
    requires file.None? || file.value.mimetype != PdfType ||
             PageSelection(Some(OrEmpty(pdfPages))).None? || PageSelection(Some(OrEmpty(pdfPages))).value == []
    ensures RequestContents(file, text, pdfPages, load, save, getPrompt) ==
            Success((if file.Some? then [InlineData(file.value.buffer, file.value.mimetype)] else []) +
                    [Prompt(getPrompt(OrEmpty(text)))])
  {
    SubsetsIff(file, OrEmpty(pdfPages));
    UnchangedUnlessSubset(file, OrEmpty(pdfPages), load, save);
  }

  /** A missing `text` or `pdfPages` field makes the same request as an empty one. */
  lemma AbsentFieldsReadEmpty(file: Option<UploadedFile>, text: Option<string>, pdfPages: Option<string>,
                              load: seq<Byte> -> Option<seq<Page>>, save: seq<Page> -> seq<Byte>,
                              getPrompt: string -> string)
    ensures RequestContents(file, None, None, load, save, getPrompt) ==
            RequestContents(file, Some(""), Some(""), load, save, getPrompt)
    ensures RequestContents(file, text, pdfPages, load, save, getPrompt) ==
            RequestContents(file, Some(OrEmpty(text)), Some(OrEmpty(pdfPages)), load, save, getPrompt)
  {
  }

  /**
   * A cut upload keeps every field but the buffer and the size: the buffer is the saved PDF of
   * the selected pages that exist, in ascending order, and the size is its length.
   */
  lemma ReplacementKeepsFields(file: Option<UploadedFile>, pdfPages: string,
                               load: seq<Byte> -> Option<seq<Page>>, save: seq<Page> -> seq<Byte>)
    requires Subsets(file, pdfPages) && load(file.value.buffer).Some?
    ensures Forwarded(file, pdfPages, load, save).Success?
    ensures var f, g := file.value, Forwarded(file, pdfPages, load, save).value;
      g.Some? &&
      g.value.fieldname == f.fieldname && g.value.originalname == f.originalname &&
      g.value.encoding == f.encoding && g.value.mimetype == f.mimetype &&
      g.value.size == |g.value.buffer| &&
      var src := load(f.buffer).value;
      g.value.buffer == save(PagesAt(src, PageSelection(Some(pdfPages)).value))
  {
  }

  /**
   * The decision tests the parsed list, not the pages that exist: a selection whose pages all
   * lie outside the document still replaces the upload, with a PDF of no pages.
   */
  lemma OutOfRangeSelectionEmpties(file: Option<UploadedFile>, pdfPages: string,
                                   load: seq<Byte> -> Option<seq<Page>>, save: seq<Page> -> seq<Byte>)
    requires Subsets(file, pdfPages) && load(file.value.buffer).Some?
    requires var n := |load(file.value.buffer).value|;
      forall k :: k in PageSelection(Some(pdfPages)).value ==> k < 0 || k >= n
    ensures Forwarded(file, pdfPages, load, save) ==
            Success(Some(file.value.(buffer := save([]), size := |save([])|)))
  {
    var src := load(file.value.buffer).value;
    var indices := PageSelection(Some(pdfPages)).value;
    assert forall k :: 0 <= k < |indices| ==> indices[k] in indices;
    NoneInRange(src, indices);
  }

  /** A selection that is one plain number `n` parses to the single page index `n - 1`. */
  lemma NumberSelection(n: nat)
    ensures PageSelection(Some(Decimal(n))) == Some([n - 1])
  {
    var d := Decimal(n);
    DigitsPlain(d);
    TrimNoop(d);
    assert ',' !in d;
    MissingChar(d, ",", ',');
    SplitNone(d, ",");
    assert Tokens(d) == [d];
    NumberToken(n);
    OneTokenSelected(d);
    assert SelectedPages(Tokens(d)) == {n - 1};
    var r := SortedFromSet({n - 1});
    assert n - 1 in r && |r| == 1;
    assert r == [n - 1];
    assert Trim(d) != "";
  }

  /** The pages of a selection with one token are the pages of that token. */
  lemma OneTokenSelected(part: string)
    ensures SelectedPages([part]) == TokenPages(part)
  {
    var xs := [part];
    assert xs[..0] == [] && xs[0] == part;
    assert UnionOver(xs[..0], TokenPages) == {};
    assert UnionOver(xs, TokenPages) == UnionOver(xs[..0], TokenPages) + TokenPages(part);
  }

  /** The selection "0" names page index -1, which no document has, yet it is a non-empty list. */
  lemma ZeroSelection()
    ensures PageSelection(Some("0")) == Some([-1])
  {
    assert Decimal(0) == "0";
    NumberSelection(0);
  }

  /** A PDF upload with the selection "0" is replaced by a PDF of no pages, not forwarded as it came. */
  lemma ZeroSelectionEmpties(file: UploadedFile, load: seq<Byte> -> Option<seq<Page>>,
                             save: seq<Page> -> seq<Byte>)
    requires file.mimetype == PdfType && load(file.buffer).Some?
    ensures Forwarded(Some(file), "0", load, save) ==
            Success(Some(file.(buffer := save([]), size := |save([])|)))
  {
    ZeroSelection();
    TrimNoop("0");
    OutOfRangeSelectionEmpties(Some(file), "0", load, save);
  }

  /**
   * The model receives the forwarded file's bytes before the prompt; with no upload it
   * receives the prompt alone.
   */
  lemma RequestOrder(file: Option<UploadedFile>, text: Option<string>, pdfPages: Option<string>,
                     load: seq<Byte> -> Option<seq<Page>>, save: seq<Page> -> seq<Byte>,
                     getPrompt: string -> string)
    requires RequestContents(file, text, pdfPages, load, save, getPrompt).Success?
    ensures var c := RequestContents(file, text, pdfPages, load, save, getPrompt).value;
      c[|c| - 1] == Prompt(getPrompt(OrEmpty(text))) &&
      (file.None? ==> c == [Prompt(getPrompt(OrEmpty(text)))])
  {
  }
}
