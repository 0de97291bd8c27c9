/** The conversation state the handlers share, the part of
    `context.user_data` the bot uses, and the three events that touch it:
    a document upload (`handle_pdf`), the "download" button
    (`download_word_callback`) and the "start over" button
    (`start_over_callback`). Transport calls are returned as a reply value. */
module Session {
  import opened Wrappers
  import opened Blocks
  import opened Extraction
  import opened Delivery
  import opened Assembly

  const PdfMimeType: string := "application/pdf"
  const OutputFileName: string := "converted.docx"

  /** The two inline buttons. */
  datatype Action = DownloadWord | StartOver

  /** The callback data each button carries. */
  function CallbackData(a: Action): string {
    match a
    case DownloadWord => "download_word"
    case StartOver => "start_over"
  }

  /** The callback handlers are registered with patterns that `re.match`
      tries against the callback data, so a pattern matches any data that
      starts with it; the first registered handler that matches wins. */
  function Route(data: string): Option<Action> {
    if "download_word" <= data then Some(DownloadWord)
    else if "start_over" <= data then Some(StartOver)
    else None
  }

  /** The entry of `context.user_data` under `'last_pdf_blocks'`. */
  datatype UserData = UserData(lastPdfBlocks: Option<seq<Block>>)

  /** What the handlers depend on but cannot see: Python's `\w`, Python's
      `hash` on bytes, and whether python-docx manages to embed an image. */
  datatype Env = Env(isWord: char -> bool, hash: seq<byte> -> int, embedOk: Image -> bool)

  /** An incoming update. `pdf` is the file as the two PDF readers see it, or
      `None` when they cannot open it. */
  datatype Event =
    | DocumentReceived(mimeType: string, pdf: Option<seq<Page>>)
    | ButtonPressed(data: string)   // the callback data of an inline button

  /** What the handler sends back. */
  datatype Reply =
    | NotAPdf                      // "this is not a PDF"
    | OpenFailed                   // the handler raised before storing anything
    | Converted(messages: seq<Outgoing>, buttons: seq<Action>)
    | NoData                       // "no data to build a Word document from"
    | DocumentSent(fileName: string, document: seq<Element>, buttons: seq<Action>)
    | SendNewPdf                   // buttons removed, "send a new PDF"
    | Unhandled                    // no registered handler matches the update

  /** `handle_pdf`. */
  function HandleDocument(env: Env, ud: UserData, mimeType: string, pdf: Option<seq<Page>>): (UserData, Reply) {
    if mimeType != PdfMimeType then (ud, NotAPdf)
    else
      match pdf
      case None => (ud, OpenFailed)
      case Some(pages) =>
        var blocks := ExtractBlocks(env.isWord, env.hash, pages);
        (UserData(Some(blocks)), Converted(Dispatch(blocks), [DownloadWord, StartOver]))
  }

  /** `download_word_callback`: a missing entry reads as the empty list. */
  function HandleDownload(env: Env, ud: UserData): (UserData, Reply) {
    var blocks := ud.lastPdfBlocks.GetOr([]);
    if blocks == [] then (ud, NoData)
    else (ud, DocumentSent(OutputFileName, Assemble(env.embedOk, blocks), [StartOver]))
  }

  /** `start_over_callback`: `pop('last_pdf_blocks', None)`. */
  function HandleStartOver(ud: UserData): (UserData, Reply) {
    (UserData(None), SendNewPdf)
  }

  /** One update through the registered handlers: documents go to
      `handle_pdf`, button presses to the callback handler `Route` picks. */
  function Step(env: Env, ud: UserData, ev: Event): (UserData, Reply) {
    match ev
    case DocumentReceived(mimeType, pdf) => HandleDocument(env, ud, mimeType, pdf)
    case ButtonPressed(data) =>
      match Route(data)
      case None => (ud, Unhandled)
      case Some(DownloadWord) => HandleDownload(env, ud)
      case Some(StartOver) => HandleStartOver(ud)
  }

  /** A press of one of the bot's own buttons. */
  function Press(a: Action): Event {
    ButtonPressed(CallbackData(a))
  }

  /** The user data after handling the events in order. */
  function Run(env: Env, ud: UserData, evs: seq<Event>): UserData
    decreases |evs|
  {
    if |evs| == 0 then ud else Step(env, Run(env, ud, evs[..|evs| - 1]), evs[|evs| - 1]).0
  }

  predicate HasNoData(ud: UserData) {
    ud.lastPdfBlocks.GetOr([]) == []
  }

  /** An upload of a PDF file the readers can open. */
  predicate OpensPdf(ev: Event) {
    ev.DocumentReceived? && ev.mimeType == PdfMimeType && ev.pdf.Some?
  }

  // ---------------------------------------------------------------------
  // Properties
  // ---------------------------------------------------------------------

  /** Each button's callback data is routed back to that button. */
  lemma RouteCallbackData(a: Action)
    ensures Route(CallbackData(a)) == Some(a)
  {
  }

  /** Callback data that no pattern matches reaches no handler: nothing is
      sent and the stored blocks stay as they are. */
  lemma UnroutedLeavesData(env: Env, ud: UserData, data: string)
    requires !("download_word" <= data) && !("start_over" <= data)
    ensures Step(env, ud, ButtonPressed(data)) == (ud, Unhandled)
  {
  }

  /** A file of another MIME type is rejected before the stored blocks are
      touched; so is a file the readers cannot open. */
  lemma NonPdfLeavesData(env: Env, ud: UserData, ev: Event)
    requires ev.DocumentReceived? && !OpensPdf(ev)
    ensures Step(env, ud, ev).0 == ud
    ensures ev.mimeType != PdfMimeType ==> Step(env, ud, ev).1 == NotAPdf
  {
  }

  /** A PDF upload replaces the stored blocks wholesale, whatever was stored
      before, even with an empty sequence. */
  lemma UploadReplacesData(env: Env, ud1: UserData, ud2: UserData, pages: seq<Page>)
    ensures var ev := DocumentReceived(PdfMimeType, Some(pages));
            && Step(env, ud1, ev).0 == Step(env, ud2, ev).0
            && Step(env, ud1, ev).0.lastPdfBlocks == Some(ExtractBlocks(env.isWord, env.hash, pages))
  {
  }

  /** What the upload sends to the chat is the extracted content: the page
      texts, in page order and in messages within the length limit, then
      the first occurrence of every image. */
  lemma UploadDeliversContent(env: Env, ud: UserData, pages: seq<Page>)
    ensures var r := Step(env, ud, DocumentReceived(PdfMimeType, Some(pages))).1;
            && r.Converted?
            && SentText(r.messages) == Concat(PageTexts(env.isWord, pages))
            && SentPhotos(r.messages) == ImageData(FirstOccurrences(env.hash, AllImages(pages)))
            && MessagesFit(r.messages)
            && r.buttons == [DownloadWord, StartOver]
  {
    var blocks := ExtractBlocks(env.isWord, env.hash, pages);
    DispatchCarriesTexts(blocks);
    DispatchCarriesImages(blocks);
    DispatchFits(blocks);
    ExtractTexts(env.isWord, env.hash, pages);
    ExtractImages(env.isWord, env.hash, pages);
  }

  /** The upload's messages keep block order: wherever the stored blocks are
      split around one block, that block's messages come after those of the
      blocks before it and before those of the blocks after it. */
  lemma UploadKeepsBlockOrder(env: Env, ud: UserData, pages: seq<Page>, pre: seq<Block>, b: Block, post: seq<Block>)
    ensures var (stored, r) := Step(env, ud, DocumentReceived(PdfMimeType, Some(pages)));
            stored.lastPdfBlocks == Some(pre + [b] + post) ==>
              r.messages == Dispatch(pre) + BlockMessages(b) + Dispatch(post)
  {
    DispatchAround(pre, b, post);
  }

  /** A download never changes the stored blocks. */
  lemma DownloadKeepsData(env: Env, ud: UserData)
    ensures Step(env, ud, Press(DownloadWord)).0 == ud
  {
  }

  /** A download reports "no data" exactly when nothing, or an empty
      sequence, is stored; otherwise it sends `converted.docx` holding one
      paragraph per text block and one picture per embeddable image, in
      block order, and leaves only the "start over" button. */
  lemma DownloadBuildsDocument(env: Env, ud: UserData)
    ensures var r := Step(env, ud, Press(DownloadWord)).1;
            && (r == NoData <==> HasNoData(ud))
            && (!HasNoData(ud) ==>
                  && r.DocumentSent?
                  && r.fileName == OutputFileName
                  && ParagraphsOf(r.document) == TextsOf(ud.lastPdfBlocks.value)
                  && PicturesOf(r.document) == Embeddable(env.embedOk, ImagesOf(ud.lastPdfBlocks.value))
                  && r.buttons == [StartOver])
  {
    if !HasNoData(ud) {
      AssembleParagraphs(env.embedOk, ud.lastPdfBlocks.value);
      AssemblePictures(env.embedOk, ud.lastPdfBlocks.value);
    }
  }

  /** The document keeps block order: wherever the stored blocks are split
      around one block, that block's paragraph or picture comes after the
      elements of the blocks before it and before those of the blocks after it. */
  lemma DownloadKeepsBlockOrder(env: Env, ud: UserData, pre: seq<Block>, b: Block, post: seq<Block>)
    requires ud.lastPdfBlocks == Some(pre + [b] + post)
    ensures var r := Step(env, ud, Press(DownloadWord)).1;
            && r.DocumentSent?
            && r.document == Assemble(env.embedOk, pre) + BlockElements(env.embedOk, b) + Assemble(env.embedOk, post)
  {
    AssembleAround(env.embedOk, pre, b, post);
  }

  /** "Start over" removes the stored blocks, so a download right after it
      reports that there is no data. */
  lemma StartOverThenDownload(env: Env, ud: UserData)
    ensures Step(env, ud, Press(StartOver)).0.lastPdfBlocks == None
    ensures Step(env, Step(env, ud, Press(StartOver)).0, Press(DownloadWord)).1 == NoData
  {
  }

  /** Without a PDF upload the stored blocks are only ever kept or cleared. */
  lemma {:induction false} RunWithoutUpload(env: Env, ud: UserData, evs: seq<Event>)
    requires forall k :: 0 <= k < |evs| ==> !OpensPdf(evs[k])
    ensures Run(env, ud, evs).lastPdfBlocks == ud.lastPdfBlocks
         || Run(env, ud, evs).lastPdfBlocks == None
    decreases |evs|
  {
    if |evs| > 0 {
      RunWithoutUpload(env, ud, evs[..|evs| - 1]);
    }
  }

  /** After "start over", downloads report no data until the next PDF upload. */
  lemma NoDataUntilUpload(env: Env, ud: UserData, evs: seq<Event>)
    requires forall k :: 0 <= k < |evs| ==> !OpensPdf(evs[k])
    ensures var cleared := Step(env, ud, Press(StartOver)).0;
            Step(env, Run(env, cleared, evs), Press(DownloadWord)).1 == NoData
  {
    RunWithoutUpload(env, Step(env, ud, Press(StartOver)).0, evs);
  }

  /** End to end: a download after a PDF upload re-reads as the non-empty
      page texts and the embeddable first occurrences of the images, and it
      reports "no data" exactly when the PDF had neither text nor images. */
  lemma UploadThenDownload(env: Env, ud: UserData, pages: seq<Page>)
    ensures var stored := Step(env, ud, DocumentReceived(PdfMimeType, Some(pages))).0;
            var r := Step(env, stored, Press(DownloadWord)).1;
            && (r == NoData <==> PageTexts(env.isWord, pages) == [] && AllImages(pages) == [])
            && (r.DocumentSent? ==>
                  && ParagraphsOf(r.document) == PageTexts(env.isWord, pages)
                  && PicturesOf(r.document)
                     == Embeddable(env.embedOk, FirstOccurrences(env.hash, AllImages(pages))))
  {
    var blocks := ExtractBlocks(env.isWord, env.hash, pages);
    var stored := UserData(Some(blocks));
    DownloadBuildsDocument(env, stored);
    ExtractTexts(env.isWord, env.hash, pages);
    ExtractImages(env.isWord, env.hash, pages);
    BlocksEmptyIff(blocks);
    FirstOccurrencesEmptyIff(env.hash, AllImages(pages));
  }
}
