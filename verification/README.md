# PDF-to-chat bot: a Dafny model

The bot takes a PDF that a user uploads to a Telegram chat. It extracts each
page's text and embedded images and sends them back into the chat in
document order. It keeps the extracted content in the user's session, so that
a "download" button can rebuild it as a Word document and a "start over"
button can forget it. All of this logic is written inline in the handlers of
`bot.py`. The model lifts it out as pure functions over abstract inputs:

- `TextNormalization` (`text.dfy`) covers the four rewrites applied to each
  page's raw text: joining hyphenated line breaks, turning newlines into
  spaces, collapsing runs of spaces, and stripping.
- `Blocks` (`blocks.dfy`) defines pages, images and the tagged content blocks.
- `Extraction` (`extraction.dfy`) covers the page loop of `handle_pdf`:
  - text blocks for the non-empty page texts;
  - image blocks deduplicated by hash across the whole run.

  It also gives reference definitions of the result that do not use the
  running hash set.
- `Delivery` (`delivery.dfy`) covers sending the blocks into the chat. Text is
  cut into 4096-character messages and images are sent as photos.
- `Assembly` (`assembly.dfy`) covers building the Word document: one paragraph
  per text block and one 5-inch picture per image that embeds.
- `Session` (`session.dfy`) covers the entry `user_data['last_pdf_blocks']`
  and the three events that touch it: upload, download and start over.
  It also covers the routing of button callbacks.
- `Wrappers` (`wrappers.dfy`) provides `Option`.

The libraries are replaced by inputs:

- A page is a record holding an optional raw text and the page's images in
  `get_images` order. The raw text is `None` when PyPDF2's extraction raised.
- An image is its bytes and its file extension.
- A whole upload is `None` when the PDF could not be opened.
- Python's `\w` is the parameter `isWord`.
- Python's `hash` on bytes is the parameter `hash`.
- Whether python-docx manages to embed an image is the parameter `embedOk`.

`re.sub` is modelled as Python runs it: a left-to-right scan whose matches do
not overlap. So `a-\nb-\nc` normalises to `ab- c`, because the first match
consumes the `b`. Lemmas that depend on what Python's `\w` really matches
assume only `WordClassExcludesSeparators`: `\w` matches neither a hyphen nor
any character that `str.isspace()` accepts.

In three places the expected behaviour of such a bot and the code differ.
The model follows the code:

- One might expect chunk boundaries that are safe for UTF-8 and for surrogate
  pairs. The code slices a Python `str`, which counts code points, every 4096
  positions. The model slices a `seq<char>` the same way.
- One might expect an unreadable PDF to be reported as a parse error. In the
  code, the exception escapes `handle_pdf` after the "not a PDF" check and
  before anything is stored. The model has a reply `OpenFailed` that leaves
  the session unchanged.
- One might expect assembly itself to fail when there are no blocks. In the
  code, the download handler checks this first and answers "no data"
  (bot.py:109-110). That is what the model does.

## Model

| member | source | states |
|---|---|---|
| TextNormalization.IsWhitespace | bot.py:61 | The characters `str.isspace()` accepts, by code point: 9-13, 28-32, U+0085, U+00A0, U+1680, U+2000-U+200A, U+2028, U+2029, U+202F, U+205F and U+3000. `strip()` with no argument removes exactly these from both ends, which Strip, SkipWhitespace and TrimEnd rely on. |
| TextNormalization.JoinFrom | bot.py:59 | The scan that `re.sub(r"(\w)-\n(\w)", r"\1\2", …)` performs from a position on: matches found left to right, never overlapping. JoinAtBreak, JoinSplit and JoinSuffix state how it treats a match; JoinRemovesOnlyMarks states that it removes only hyphens and newlines. |
| TextNormalization.JoinHyphens | bot.py:59 | The substitution applied to a whole page text. ExampleJoin, OverlappingJoin, JoinWithoutNewline and JoinWhitespace state its behaviour. |
| TextNormalization.JoinAtBreak | bot.py:59 | A `w-\nw` match that the scan reaches, i.e. one no earlier match overlaps, is replaced by its two word characters. The text before it and the text after it are each processed on their own. |
| TextNormalization.JoinAtNonBreak | bot.py:59 | Any other position the scan reaches is copied: its character is kept, and the text before it and after it are each processed on their own. |
| TextNormalization.JoinSplit | bot.py:59 | Cutting the text at a position the scan reaches does not change the output of the substitution. |
| TextNormalization.JoinSuffix | bot.py:59 | Scanning a suffix gives the same output as scanning the whole text from where the suffix starts. |
| TextNormalization.JoinWithoutNewline | bot.py:59 | A text without a newline is left unchanged by the hyphen join. |
| TextNormalization.ScanReachesAfterPlainText | bot.py:59 | When no newline comes before a `w-\nw`, the scan reaches its first character. |
| TextNormalization.JoinSingleBreak | bot.py:59 | Plain text followed by `a-\nb` and a rest becomes the plain text, then `ab`, then the join of the rest. |
| TextNormalization.ExampleJoin | bot.py:59 | `"exam-\nple"` becomes `"example"`. |
| TextNormalization.OverlappingJoin | bot.py:59 | In `"a-\nb-\nc"` the first match consumes the `b`, so the second hyphen and newline remain: the join gives `"ab-\nc"`. |
| TextNormalization.JoinRemovesOnlyMarks | bot.py:59 | The join removes nothing but hyphens and newlines: with every hyphen and newline taken out, its output equals its input. Every other character is kept, in order. |
| TextNormalization.JoinWhitespace | bot.py:59 | With Python's `\w`, the joined text is all whitespace exactly when the raw text is. |
| TextNormalization.NewlinesToSpaces | bot.py:60 | `replace("\n", " ")` keeps the length, changes each newline to a space, leaves every other character in place, and leaves no newline. |
| TextNormalization.NewlinesKeepVisible | bot.py:60 | Replacing newlines keeps every non-whitespace character, in order. |
| TextNormalization.SkipSpaces | bot.py:61 | Finds the end of the run of spaces starting at a position: everything up to it is a space, and the character there is not a space. |
| TextNormalization.CollapseFrom | bot.py:61 | Collapsing the runs of spaces keeps the first character and leaves no two consecutive spaces. |
| TextNormalization.CollapseSpaces | bot.py:61 | `re.sub(r" {2,}", " ", …)` on a whole text. CollapseIsDropRedundant equates it with the reference that drops every space preceded by a space. |
| TextNormalization.CollapseIsDropRedundant | bot.py:61 | The run-at-a-time substitution of ` {2,}` equals the reference that drops every space preceded by a space and keeps everything else. |
| TextNormalization.DropRedundantRun | bot.py:61 | Every space of a run after its first is dropped. |
| TextNormalization.DropRedundantIdentity | bot.py:61 | A text with no double space is unchanged by the collapse. |
| TextNormalization.CollapseKeepsVisible | bot.py:61 | The collapse keeps every non-whitespace character, in order. |
| TextNormalization.CollapseCharacters | bot.py:61 | The collapse emits only characters of its input, and its output is all whitespace exactly when its input is. |
| TextNormalization.CollapseDrawsFromInput | bot.py:61 | Every character the collapse emits occurs in its input. |
| TextNormalization.CollapseWhitespaceIff | bot.py:61 | The collapse's output is all whitespace exactly when its input is. |
| TextNormalization.SkipWhitespace | bot.py:61 | Finds the first position at or after a given one that is not whitespace (as `str.isspace` defines it): everything skipped is whitespace. |
| TextNormalization.TrimEnd | bot.py:61 | Finds where a slice ends once its trailing whitespace is cut off: everything cut off is whitespace, and the character before the new end is not. |
| TextNormalization.Strip | bot.py:61 | `strip()` returns the slice after the leading whitespace whose two ends are not whitespace. Everything cut off after it is whitespace. |
| TextNormalization.StripKeepsVisible | bot.py:61 | Stripping keeps every non-whitespace character, in order. |
| TextNormalization.StripEmptyIff | bot.py:61 | Stripping gives the empty string exactly when the text is all whitespace. |
| TextNormalization.StripIdentity | bot.py:61 | A text that neither starts nor ends with whitespace is unchanged by stripping. |
| TextNormalization.StripKeepsShape | bot.py:61 | Stripping keeps the absence of newlines and of double spaces. |
| TextNormalization.Normalize | bot.py:58-61 | The hyphen join, the newline replacement, the space collapse and the strip, in source order. NormalizeShape, NormalizeKeepsVisible, NormalizeEmptyIff and NormalizeIdempotent state what its result is. |
| TextNormalization.SliceKeepsShape | bot.py:61 | A slice of a text without newlines or double spaces has neither. |
| TextNormalization.NormalizeShape | bot.py:58-61 | A normalised page text has no whitespace at either end, no newline and no two consecutive spaces. |
| TextNormalization.NormalizeKeepsVisible | bot.py:58-61 | After the hyphen join, the rest of normalisation removes only whitespace: the non-whitespace characters of the result are those of the joined text, in order. JoinAtBreak and JoinAtNonBreak fix what the join does at every position its scan stands on: only the hyphen and newline of a `w-\nw` match disappear. So normalisation removes only whitespace and the hyphens and newlines of joined breaks. |
| TextNormalization.NormalizeEmptyIff | bot.py:58-61 | With Python's `\w`, a page text normalises to the empty string exactly when it is whitespace only. |
| TextNormalization.NormalizeIdempotent | bot.py:58-61 | Normalising an already normalised text changes nothing. |
| TextNormalization.ExampleOverlappingBreaks | bot.py:58-61 | `"a-\nb-\nc"` normalises to `"ab- c"`, not `"abc"`. |
| Blocks.TextsOfConcat | bot.py:50-76 | The text blocks of a concatenation are those of each part, in order. |
| Blocks.ImagesOfConcat | bot.py:50-76 | The image blocks of a concatenation are those of each part, in order. |
| Blocks.AsImageBlocksConcat | bot.py:74-75 | Turning images into blocks commutes with concatenation. |
| Blocks.ImageBlockContents | bot.py:75 | A single image block carries its image and no text. |
| Blocks.AsImageBlocksImages | bot.py:74-75 | Images turned into blocks read back as the same images, in order. |
| Blocks.AsImageBlocksTexts | bot.py:74-75 | Image blocks carry no text. |
| Blocks.ImagesAfterAppend | bot.py:64-75 | Appending blocks without images and then image blocks adds exactly those images, in order. |
| Blocks.TextsAfterAppend | bot.py:64-75 | Appending some blocks and then image blocks adds exactly the texts of the first ones. |
| Blocks.BlocksEmptyIff | bot.py:109 | A block list is empty exactly when it has neither text blocks nor image blocks. |
| Extraction.PageText | bot.py:56-63 | The page text after the `try`: the normalised raw text, or `""` when extraction raised. PageContributesText and TextPartContents state when it is empty. |
| Extraction.TextPart | bot.py:64-65 | The text block a page adds. TextPartContents states it is the normalised text exactly when that is non-empty. |
| Extraction.StepImage | bot.py:73-76 | One pass of the image loop: append the image and record its hash unless the hash was seen. StepImagesAppends states what the inner loop appends. |
| Extraction.StepImages | bot.py:68-76 | The inner image loop over one page. StepImagesAppends relates it to the reference FreshImages. |
| Extraction.StepPage | bot.py:54-76 | One pass of the page loop: text first, then images. StepPageAppends, StepPageTexts and StepPageImages state what it adds. |
| Extraction.RunPages | bot.py:50-76 | The page loop from the empty block list and hash set. RunPagesSeen, RunPagesTexts and RunPagesImages state its final state. |
| Extraction.ExtractBlocks | bot.py:50-76 | The `docx_blocks` the loop builds. ExtractTexts, ExtractImages and ExtractAppendPage relate it to the reference definitions PageTexts and FirstOccurrences. |
| Extraction.TextPartContents | bot.py:56-65 | A page adds its normalised text as one text block when that text is non-empty, and adds nothing otherwise. It never adds an image. |
| Extraction.PageContributesText | bot.py:56-65 | With Python's `\w`, a page contributes a text block exactly when its extraction succeeded and its raw text is not whitespace only. A failed extraction contributes nothing. |
| Extraction.HashesMembers | bot.py:73-76 | A hash is among the recorded hashes of a list of images exactly when some image in the list has it. |
| Extraction.IsFirstMeans | bot.py:74 | An image is a first occurrence exactly when no earlier image has the same hash. |
| Extraction.HashesConcat | bot.py:76 | The hashes of a concatenation are the union of the hashes of the parts. |
| Extraction.StepImagesAppends | bot.py:68-76 | The inner image loop appends exactly the images whose hash is neither already seen nor shared with an earlier image of the page. It records the hashes of all the page's images. |
| Extraction.FreshImagesConcat | bot.py:68-76 | Deduplicating two lists in a row equals deduplicating their concatenation. The second list is checked against the first list's hashes as well. |
| Extraction.StepPageAppends | bot.py:54-76 | One page appends its text block, if any, and then its new images. Nothing already emitted changes. |
| Extraction.StepPageTexts | bot.py:54-65 | One page adds at most its own normalised text to the text blocks. |
| Extraction.StepPageImages | bot.py:68-76 | One page adds exactly its new images to the image blocks. |
| Extraction.RunPagesSeen | bot.py:51-76 | After the loop, the hash set holds exactly the hashes of all images on all pages. |
| Extraction.RunPagesTexts | bot.py:54-65 | The loop's text blocks are the non-empty page texts, in page order. |
| Extraction.RunPagesImages | bot.py:54-76 | The loop's image blocks are the first occurrences among all images of the document, in page order and `get_images` order. |
| Extraction.ExtractAppendPage | bot.py:54-76 | Block order follows the pages. A further page appends, after all earlier blocks, its text block and then its images whose hash no earlier image had, in `get_images` order. |
| Extraction.ExtractTexts | bot.py:54-65 | The text blocks are exactly the non-empty normalised page texts, in page order. There are at most as many as pages. |
| Extraction.PageTextsCount | bot.py:54-65 | There are at most as many non-empty page texts as pages. |
| Extraction.ExtractImages | bot.py:51-76 | The image blocks are the first occurrences of the document's images: an image is emitted exactly when its hash did not occur earlier, on its page or an earlier one. |
| Extraction.FreshImagesDistinct | bot.py:74-76 | No two deduplicated images share a hash. None has a hash that was already seen. |
| Extraction.ExtractImagesDistinct | bot.py:51-76 | No two image blocks of an upload share a hash. |
| Extraction.FirstOccurrencesMembers | bot.py:74-76 | Every first occurrence is emitted, and everything emitted is a first occurrence. |
| Extraction.ExampleDuplicateAcrossPages | bot.py:51-76 | The same image on two pages gives one image block, at the first page. |
| Extraction.FirstOccurrencesEmptyIff | bot.py:74-76 | Deduplication keeps at least one image whenever there is one. |
| Delivery.ConcatAppend | bot.py:84-85 | Joining the chunks commutes with appending lists of chunks. |
| Delivery.ChunksFrom | bot.py:84-85 | The slices `[i, i+4096)` join back to the text. Each is non-empty and at most 4096 long. All but the last are exactly 4096 long. |
| Delivery.ChunksCount | bot.py:84 | There are as many chunks as `range(i, len(t), 4096)` has elements: the remaining length divided by 4096, rounded up. |
| Delivery.Chunks | bot.py:84-85 | The messages one text block becomes. ChunksFrom, ChunksCount and ChunksAreWindows state what they are. |
| Delivery.ChunksAreWindows | bot.py:84-85 | Chunk `k` is the window of the text from `k*4096` to `(k+1)*4096`, or to the end of the text, whichever comes first. |
| Delivery.ExampleTenThousand | bot.py:84-85 | A 10 000-character text goes out as messages of 4096, 4096 and 1808 characters. |
| Delivery.BlockMessages | bot.py:83-91 | The sends for one block: one message per chunk of a text block, one photo of an image block's bytes. TextMessagesCarry states what the text messages carry. |
| Delivery.TextMessages | bot.py:84-85 | One `send_message` per chunk. TextMessagesCarry states it carries each chunk in order and no photo. |
| Delivery.Dispatch | bot.py:82-91 | The sends for all blocks, in block order. DispatchConcat, DispatchAround, DispatchCarriesTexts, DispatchCarriesImages and DispatchFits state its properties. |
| Delivery.DispatchConcat | bot.py:82-91 | Sending two block lists in a row makes the two lists of sends in a row. |
| Delivery.DispatchAround | bot.py:82-91 | Block order is sending order: a block's sends come after those of every block before it and before those of every block after it. |
| Delivery.DispatchSingle | bot.py:82-91 | A single block sends exactly its own messages. |
| Delivery.DispatchSnoc | bot.py:82-91 | One more block appends its sends after all earlier ones. |
| Delivery.SentConcat | bot.py:82-91 | The text sent and the photos sent by two message lists in a row are those of each list, in order. |
| Delivery.SentTextConcat | bot.py:82-85 | The text sent by two message lists in a row is the text of each, joined. |
| Delivery.SentPhotosConcat | bot.py:86-91 | The photos sent by two message lists in a row are those of each, in order. |
| Delivery.TextMessagesCarry | bot.py:84-85 | One text message per chunk, carrying that chunk, and no photo. |
| Delivery.DispatchCarriesTexts | bot.py:82-85 | Delivery loses and reorders no text: the text messages, joined, are the text blocks, joined, in block order. |
| Delivery.DispatchCarriesImages | bot.py:86-91 | The photos sent are the image blocks' bytes, one per block, in block order. |
| Delivery.DispatchFits | bot.py:84-85 | Every text message is non-empty and at most 4096 characters long. |
| Assembly.BlockElements | bot.py:114-124 | What one block adds to the document: a paragraph for a text block; a 5-inch picture for an image that embeds, nothing for one that does not. AssembleParagraphs, AssemblePictures and AssembleSize state the result. |
| Assembly.Assemble | bot.py:112-124 | The document the loop builds, block by block. AssembleConcat, AssembleAround, AssembleParagraphs, AssemblePictures and AssembleSize state its properties. |
| Assembly.AssembleConcat | bot.py:112-124 | Assembling two block lists in a row gives the two documents in a row. |
| Assembly.AssembleAround | bot.py:112-124 | Block order is document order: a block's elements come after those of every block before it and before those of every block after it. |
| Assembly.ParagraphsOfConcat | bot.py:112-125 | The paragraphs of two documents in a row are those of each, in order. |
| Assembly.PicturesOfConcat | bot.py:112-125 | The pictures of two documents in a row are those of each, in order. |
| Assembly.AssembleParagraphs | bot.py:113-115 | Reading back the paragraphs of the document gives the text blocks, complete and in order. |
| Assembly.AssemblePictures | bot.py:116-124 | The pictures are exactly the images that embed, in block order. A failed image is skipped and assembly goes on. |
| Assembly.AssembleSize | bot.py:113-124 | The document has one element per text block plus one per embeddable image. Every picture is 5 inches wide. |
| Session.CallbackData | bot.py:95-96 | The `callback_data` of the two inline buttons: `"download_word"` for the download button and `"start_over"` for the start-over button (also offered again at bot.py:136). RouteCallbackData states that Route sends each back to its own handler. |
| Session.HandleDocument | bot.py:32-102 | `handle_pdf`: rejects another MIME type, fails on a PDF that cannot be opened, otherwise stores the extracted blocks and sends them. NonPdfLeavesData, UploadReplacesData, UploadDeliversContent and UploadKeepsBlockOrder state its effects. |
| Session.HandleDownload | bot.py:104-138 | `download_word_callback`. DownloadKeepsData, DownloadBuildsDocument and DownloadKeepsBlockOrder state its effects. |
| Session.HandleStartOver | bot.py:140-148 | `start_over_callback`. StartOverThenDownload states its effect. |
| Session.Route | bot.py:163-164 | The callback patterns, tried with `re.match` in registration order. RouteCallbackData and UnroutedLeavesData state what it picks. |
| Session.Step | bot.py:161-164 | One update through the registered handlers: a document goes to `handle_pdf`, callback data to the handler `Route` picks, and unmatched data to none. |
| Session.Run | bot.py:161-164 | The stored blocks after a sequence of updates. RunWithoutUpload and NoDataUntilUpload state what happens without an upload. |
| Session.RouteCallbackData | bot.py:163-164 | Each button's callback data is routed to that button's handler. |
| Session.UnroutedLeavesData | bot.py:163-164 | Callback data that starts with neither pattern reaches no handler: nothing is sent and the stored blocks stay as they are. |
| Session.NonPdfLeavesData | bot.py:36-41 | A file of another MIME type gets "not a PDF" and leaves the stored blocks untouched. So does a PDF that cannot be opened. |
| Session.UploadReplacesData | bot.py:79 | A PDF upload replaces the stored blocks wholesale with the extracted ones, even when there are none, whatever was stored before. |
| Session.UploadDeliversContent | bot.py:79-102 | The upload sends the non-empty page texts, in page order, as messages within the length limit. It sends the first occurrence of every image as a photo, and offers the two buttons. |
| Session.UploadKeepsBlockOrder | bot.py:79-91 | The upload's sends keep the order of the stored blocks: however the stored blocks split around one block, that block's sends come after those of the blocks before it and before those of the blocks after it. |
| Session.DownloadKeepsData | bot.py:107 | A download never changes the stored blocks. |
| Session.DownloadBuildsDocument | bot.py:107-138 | A download reports "no data" exactly when nothing, or an empty list, is stored. Otherwise it sends `converted.docx` with one paragraph per text block and one picture per embeddable image, in block order, and leaves only the "start over" button. |
| Session.DownloadKeepsBlockOrder | bot.py:109-124 | The document keeps the order of the stored blocks: however they split around one block, that block's paragraph or picture comes after the elements of the blocks before it and before those of the blocks after it. |
| Session.StartOverThenDownload | bot.py:143 | "Start over" removes the stored blocks, so a download right after it reports no data. |
| Session.RunWithoutUpload | bot.py:36-143 | Without a successful PDF upload, the stored blocks are only ever kept or removed. |
| Session.NoDataUntilUpload | bot.py:107-143 | After "start over", every download reports no data until the next PDF upload. |
| Session.UploadThenDownload | bot.py:50-124 | A download right after an upload yields the non-empty page texts and the embeddable first occurrences of the images. It reports "no data" exactly when the PDF had neither text nor images. |

## Left out

- Telegram transport is not modelled. This covers `reply_text`, `send_message`, `send_photo`, `send_document`, `get_file`, `download_to_drive`, `answer`, `edit_message_*`, keyboards and the webhook. It is network I/O. The handlers' effects appear as a `Reply` value: the message list and the buttons offered.
- The `/start` greeting and the "⏳ processing" message are not modelled. They are fixed texts with no state.
- PyMuPDF and PyPDF2 parsing are not modelled; they are foreign libraries. A page is an abstract record.
  - A text extraction that raises, including a PyPDF2 page index that is out of range, is `rawText == None`.
  - A PDF that cannot be opened is `pdf == None`.
- An exception from `extract_image` is not modelled. The code does not catch it, so it aborts the whole handler. The model takes each page's images as already extracted.
- python-docx internals, `tempfile` and `doc.save` are not modelled; they are file I/O and foreign calls. The document is a list of paragraph and picture elements. Whether a picture embeds is the parameter `embedOk`.
- The content of the "no data", "not a PDF" and "send a new PDF" messages is not modelled; each is a constructor of `Reply`. The reply-markup edits are not modelled either.
- The concrete `hash(bytes)` is not modelled. It is an uninterpreted parameter, so two different images with the same hash count as duplicates, as in the code.
- Python's `\w` is the parameter `isWord`. Only `WordClassExcludesSeparators` is assumed about it: `\w` matches neither `-` nor whitespace.
- `main()` is not modelled: environment variables, logging and the webhook setup. Only the way its registered handlers share out updates is modelled, by `Route` and `Step`. Callback data that matches no pattern gets the reply `Unhandled`.
- Only one user's `user_data` is modelled. The bot keeps one such map per user, and the maps do not interact.
- TextNormalization.NormalizeEmptyIff: holds only under `WordClassExcludesSeparators`. If `isWord` accepted `-` or a space, the join could turn a text with content into whitespace only.
- TextNormalization.JoinWhitespace: holds only under `WordClassExcludesSeparators`, for the same reason.
- Extraction.PageContributesText: holds only under `WordClassExcludesSeparators`, because it rests on TextNormalization.NormalizeEmptyIff.
