# Content filter: moderation decisions and document layout

This project models the decision logic of a document content filter. The filter reads a
`.docx`, `.pdf` or `.txt` document, removes inappropriate text and images, and writes the
result back in the same format. The model covers three source files:

- `text_filter.py`. The validity gate has two parts: binary content, by a character
  pattern and a special-character ratio, and "some word holds a letter". Each segment then
  gets one of three outcomes: passed through unchanged, removed when the toxicity
  classifier fires, or pruned of blocklisted tokens. The file also covers `filter_texts`
  and the statistics of `get_content_stats`.
- `image_filter.py`. The NSFW and violence checks are first-match searches over a
  classifier's predictions. The red-pixel short-circuit comes before the violence
  classifier. The failure policy is asymmetric: NSFW errors remove the image, violence
  errors keep it. NSFW takes precedence. The file also covers `filter_images` and the
  category counts of `get_image_stats`.
- `utils.py`. `get_document_type` maps a file name to a type. The file also covers the
  clean-up of PDF text blocks, the rule by which the `.txt` and `.docx` writers drop blank
  segments, and the page layout of `save_pdf`.

The machine-learning models and the tokenizers are parameters of the model, each a total
function of its input:
- the toxicity classifier, the spaCy parser and NLTK's `word_tokenize` (`TextFilter.Oracles`);
- what the image models report about one image (`ImageFilter.Probe`).

Everything the source decides from their answers is modelled exactly, up to the
character-class and lower-casing differences listed under "## Left out". The loops of the
source are methods. Each is proved equal to a specification function, defined by
recursion from the back of its input. The properties are lemmas about those functions.

Modules:
- `Wrappers`: `Option`, `Result`.
- `Statistics`: `clean_ratio`.
- `Strings`: Python's `isspace`, `isalpha`, `isalnum`, `lower`, `strip`, `split()` and
  `' '.join`.
- `TextFilter`.
- `ImageFilter`.
- `DocumentFormats`: `get_document_type`, the PDF block clean-up, `save_txt` and `save_docx`.
- `PdfLayout`: `save_pdf`.

A removed text segment becomes a bare `"\n"` (text_filter.py:130, 139, 141), not an
empty string. That matches the "empty lines" of the docstring at text_filter.py:124.

## Model

| member | source | states |
|---|---|---|
| Statistics.CleanRatio | text_filter.py:173 | `(total - removed) / total` lies in [0, 1] when removed ≤ total. It is exactly 1.0 when total is 0, and 1.0 on a non-empty total only when nothing was removed. |
| Strings.Strip | text_filter.py:65 | `strip()` is empty exactly when the text is all whitespace. Otherwise it starts and ends with non-whitespace and is no longer than the text. |
| Strings.SplitWordsEmpty | text_filter.py:73 | `split()` gives no words exactly when the text is blank. |
| Strings.SplitWordsHasAlpha | text_filter.py:73 | Some word of `split()` holds a letter exactly when the text holds a letter. |
| Strings.SplitJoin | utils.py:61 | Words without whitespace, joined by single spaces and split again, come back unchanged. |
| TextFilter.HasBinaryChar | text_filter.py:33 | The binary pattern matches exactly when some character is a C0 control other than tab, LF and CR, or lies in U+007F to U+00FF. |
| TextFilter.CountSpecial | text_filter.py:55 | The count of characters that are neither alphanumeric nor whitespace is at most the length. It is 0 exactly when there is none, and the length exactly when every character is special. |
| TextFilter.IsBinaryContent | text_filter.py:46-59 | Binary exactly when a binary-pattern character occurs or `2 * special > len`. The empty text is never binary. |
| TextFilter.IsValidText | text_filter.py:61-77 | Valid exactly when the text is not binary and holds a letter. This covers "non-blank" and "some word of `split()` holds a letter". |
| TextFilter.AnyToxic | text_filter.py:87-90 | True exactly when some result is labelled exactly `toxic` with a score strictly above 0.7. |
| TextFilter.CheckToxicity | text_filter.py:79-90 | Toxic exactly when the text is valid and the classifier reports a toxic result. Invalid text is never toxic. |
| TextFilter.KeptTokens | text_filter.py:109-116 | Every kept token is a token of the input and is not blocklisted in lower case. At most as many tokens are kept as were given. |
| TextFilter.FilterText | text_filter.py:92-119 | The token loop returns invalid text unchanged and `""` for toxic text. Otherwise it returns the non-blocklisted tokens, in order, joined by single spaces. |
| TextFilter.FilteredText | text_filter.py:92-119 | Invalid text is returned unchanged. Toxic text gives `""`. Any other text gives its non-blocklisted tokens joined by single spaces. |
| TextFilter.FilterSegment | text_filter.py:128-141 | Every element `filter_texts` appends ends with a line break. |
| TextFilter.FilterTexts | text_filter.py:121-142 | The output has the input's length. Element i is the segment rule applied to input i, and every element ends with `"\n"`. |
| TextFilter.KeptTokensAppend | text_filter.py:109-116 | Pruning distributes over concatenation, so the surviving tokens keep their order. |
| TextFilter.KeptTokensOccurrences | text_filter.py:113-116 | A blocklisted token survives 0 times. Any other token survives as often as it occurs. |
| TextFilter.KeptTokensIdempotent | text_filter.py:109-116 | Pruning a pruned token list changes nothing. |
| TextFilter.CountBlocked | text_filter.py:161 | The number of blocklisted tokens is at most the number of tokens, and 0 exactly when no token is blocklisted. |
| TextFilter.BlockedAndKeptPartition | text_filter.py:161-167 | Blocklisted tokens plus kept tokens are all the tokens. |
| TextFilter.InvalidTextPassesThrough | text_filter.py:98-99 | Invalid text comes back unchanged, whatever the models say. |
| TextFilter.NoBlockedTokenSurvives | text_filter.py:106-119 | For valid, non-toxic text the result is the kept tokens joined, and none of them is blocklisted. |
| TextFilter.BinaryOrBlankSegmentIsBreak | text_filter.py:129-141 | A binary or blank segment becomes exactly `"\n"`. |
| TextFilter.ToxicSegmentIsBreak | text_filter.py:134-139 | A non-binary segment whose stripped text is toxic becomes exactly `"\n"`. |
| TextFilter.InvalidStrippedSegmentIsKept | text_filter.py:129-137 | A non-binary, non-blank segment whose stripped text is invalid is written back stripped, with a line break. |
| TextFilter.BinaryOnlyAfterStripIsKept | text_filter.py:129-137 | `"!!  "` is not binary as given, but `"!!"` is. The segment therefore comes out as `"!!\n"`. |
| TextFilter.HighLatinSegmentIsBreak | text_filter.py:129-131 | A segment holding any character from U+007F to U+00FF is binary and never valid, and becomes `"\n"`. This includes accented letters and the no-break space. |
| TextFilter.LineBreaksAreNotBinary | text_filter.py:33 | Tab, LF, CR and space never match the binary pattern. |
| TextFilter.ToxicSegmentFiltersAllWords | text_filter.py:157-167 | A toxic segment adds every one of its words to `filtered_words`, and 1 to `toxic_contexts`. |
| TextFilter.SegmentFilteredAtMostWords | text_filter.py:154-167 | A segment never adds more filtered words than words. It adds a toxic context only when it is valid. |
| TextFilter.StatsBounds | text_filter.py:144-173 | `filtered_words <= total_words`, and `toxic_contexts` is at most the number of valid segments. |
| TextFilter.StatsAdditive | text_filter.py:152-167 | The three counters over two runs of segments are the sums over each run. |
| TextFilter.InvalidSegmentIgnored | text_filter.py:154-155 | Inserting an invalid segment anywhere leaves all three counters unchanged. |
| TextFilter.GetContentStats | text_filter.py:144-174 | The counter loop yields the per-segment sums. `filtered_words <= total_words`, `toxic_contexts` is at most the valid segments, and `clean_ratio` lies in [0, 1]. `clean_ratio` is 1.0 when there are no words. |
| ImageFilter.FirstNsfw | image_filter.py:64-74 | The prediction loop finds a label exactly when some prediction has lower-cased label porn, hentai or sexy with a score above 0.7. It returns the lower-cased label of the first such prediction. |
| ImageFilter.CheckNsfw | image_filter.py:54-80 | An exception gives `(True, "Error in processing")`. Otherwise the image is flagged exactly when some NSFW hit exists, and then the category is `"NSFW: "` followed by the lower-cased label of the first hit. Flagged verdicts have a category, unflagged ones have `""`. |
| ImageFilter.FirstViolence | image_filter.py:103-109 | A label is found exactly when some lower-cased label contains weapon, knife, gun, blood or injury with a score above 0.7. The first such label is returned. |
| ImageFilter.CheckViolence | image_filter.py:82-115 | An exception while masking gives `(False, "")`. More than a fifth of red pixels gives `(True, "Violence: Blood detected")`. Otherwise the image is flagged exactly when the classifier answered and some violence hit exists, and then the category is `"Violence: "` followed by the lower-cased label of the first hit. |
| ImageFilter.IsInappropriate | image_filter.py:117-140 | A preprocessing exception flags the image with the error category. A flagged NSFW verdict is final. Otherwise the violence verdict decides. Flagged exactly when the category is non-empty. |
| ImageFilter.FilterImage | image_filter.py:142-154 | A kept image is the original image. A removed one gives None. The flag and category are those of `_is_inappropriate`. |
| ImageFilter.NsfwTakesPrecedence | image_filter.py:126-129 | Once the NSFW check flags, the red mask and the violence classifier cannot change the verdict. |
| ImageFilter.BloodShortCircuit | image_filter.py:98-100 | More than a fifth of red pixels flags the image as blood, whatever the violence classifier would say. |
| ImageFilter.QuarterRedIsBlood | image_filter.py:98-100 | A quarter of red pixels is flagged as blood. |
| ImageFilter.FailurePolicyIsAsymmetric | image_filter.py:78-115 | An NSFW exception removes the image. A mask exception or a violence classifier exception keeps it. |
| ImageFilter.FilterImages | image_filter.py:160-176 | Flags and categories have the input's length and hold each image's verdict. A flag is set exactly when its category is non-empty. The kept images are the unflagged ones in order, as many as the input minus the flags set. |
| ImageFilter.CountTrue | image_filter.py:183 | `sum(flags)` is at most the number of flags. UnflaggedCount and CategoryCountsMatchFlags relate it to the kept images and the category counts. |
| ImageFilter.Unflagged | image_filter.py:169-174 | The kept images are at most the images given. UnflaggedCount and UnflaggedMembers fix how many and which. |
| ImageFilter.UnflaggedCount | image_filter.py:169-176 | As many images are kept as there are false flags. |
| ImageFilter.UnflaggedMembers | image_filter.py:169-176 | Every unflagged image is kept, and every kept image is an unflagged input. |
| ImageFilter.BeforeColon | image_filter.py:189 | `split(':')[0]` holds no colon and is a prefix of the category. |
| ImageFilter.MainCategory | image_filter.py:189 | The key `category.split(':')[0].strip()` holds no colon and is no longer than the category. |
| ImageFilter.MainCategoryOfLabelled | image_filter.py:189 | The key of `"<kind>: <detail>"` is the kind, for a kind without a colon or surrounding whitespace. |
| ImageFilter.FlaggedCategoryKinds | image_filter.py:189 | Every category that flags an image is counted under NSFW, Violence or Error in processing. |
| ImageFilter.CategoryCounts | image_filter.py:186-190 | The `category_counts` dictionary. CategoryCountsAreCounts, CategoryCountsSum and CountCategories state its keys and counts. |
| ImageFilter.CategoryCountsAreCounts | image_filter.py:186-190 | A key is present exactly when some non-empty category has it. Its count is the number of such categories. |
| ImageFilter.CategoryCountsSum | image_filter.py:186-190 | The per-key counts add up to the number of non-empty categories. |
| ImageFilter.CategoryCountsMatchFlags | image_filter.py:183-190 | On the output of `filter_images`, the per-key counts add up to `flagged_images`. |
| ImageFilter.CountCategories | image_filter.py:186-190 | The dictionary loop builds the per-key counts. |
| ImageFilter.GetImageStats | image_filter.py:178-197 | `total_images` is the number of flags and `flagged_images` the number of true flags. Every present key has a positive count equal to its number of categories. `clean_ratio` lies in [0, 1] and is 1.0 with no images. |
| DocumentFormats.RFind | utils.py:13 | The last index holding the character, or -1 when none does. |
| DocumentFormats.Extension | utils.py:13 | `splitext(path)[1]` is empty or a suffix of the path. A non-empty one starts with its only dot and has no separator. |
| DocumentFormats.GetDocumentType | utils.py:9-21 | The lower-cased extension `.docx`, `.pdf` or `.txt` gives that type. Any other gives the error `"Unsupported file format: " + ext`. |
| DocumentFormats.ExtensionOfName | utils.py:13 | A name `stem.e` with a proper stem has extension `.e`. |
| DocumentFormats.DocumentTypeOfName | utils.py:13-19 | `stem.e` whose `e` lowers to `docx`, `pdf` or `txt` is that type, in any case. |
| DocumentFormats.DocumentTypeOfNameIff | utils.py:13-21 | `stem.e` is accepted exactly when `e` lowers to `docx`, `pdf` or `txt`. Every other extension is refused. |
| DocumentFormats.LastExtensionDecides | utils.py:13-19 | `a.txt.PDF` is a PDF: only the last extension counts, ignoring case. |
| DocumentFormats.DotFileIsRefused | utils.py:13-21 | A name like `.pdf` has no extension and is refused with an empty extension in the message. |
| DocumentFormats.NoExtensionIsRefused | utils.py:13-21 | A name without a dot is refused. |
| DocumentFormats.DocumentTypeIgnoresCase | utils.py:13 | Lower-casing the name does not change the outcome. |
| DocumentFormats.CollapseSpaces | utils.py:61 | `re.sub(r'\s+', ' ', s)` is never longer than `s`, and is empty only for the empty string. |
| DocumentFormats.CollapseSpacesSingle | utils.py:61 | After collapsing, every whitespace character is a single space, and no whitespace follows it. |
| DocumentFormats.CleanBlock | utils.py:61 | The cleaned block is its words joined by single spaces. It is empty exactly when the block is blank. It neither starts nor ends with whitespace, and every space in it lies between two non-space characters. |
| DocumentFormats.CleanBlockIsJoin | utils.py:61 | `re.sub(r'\s+', ' ', t).strip()` equals `' '.join(t.split())`. |
| DocumentFormats.CleanBlockIdempotent | utils.py:61 | Cleaning a cleaned block changes nothing. |
| DocumentFormats.CleanBlockKeepsWords | utils.py:61 | Cleaning keeps the words of the block, in order. |
| DocumentFormats.PageTexts | utils.py:56-63 | Every text a page contributes is non-empty and is some block of the page, cleaned. |
| DocumentFormats.CleanPage | utils.py:57-63 | The block loop of one page yields its cleaned, non-empty blocks in order. |
| DocumentFormats.ExtractPdfTexts | utils.py:52-63 | The page loop yields the texts of every page, page after page. |
| DocumentFormats.PageTextsAppend | utils.py:57-63 | Block order is kept. The texts of two runs of blocks are the texts of each, concatenated. |
| DocumentFormats.PageTextsSingle | utils.py:59-63 | A blank block contributes nothing. Any other contributes its cleaned text. |
| DocumentFormats.PdfTextsAreClean | utils.py:52-63 | Every extracted text is non-empty and has no surrounding whitespace. It is single-spaced and unchanged by cleaning. |
| DocumentFormats.NonBlank | utils.py:187-188 | The `if text.strip()` selection keeps at most the segments given. NonBlankCounts and NonBlankAppend fix which ones, and in what order. |
| DocumentFormats.NonBlankCounts | utils.py:187-188 | A blank segment is never written. A non-blank one is written as often as it occurs. |
| DocumentFormats.NonBlankAppend | utils.py:187-188 | Selection keeps order: it distributes over concatenation. |
| DocumentFormats.LinesAt | utils.py:189 | Line i is selected segment i followed by `"\n"`. |
| DocumentFormats.SaveTxt | utils.py:182-189 | The writes are, in order, `text + "\n"` for exactly the non-blank segments. |
| DocumentFormats.ParagraphsAt | utils.py:105-107 | Paragraph i holds selected segment i. |
| DocumentFormats.PicturesAt | utils.py:110-113 | Picture i holds image i. |
| DocumentFormats.AddParagraphs | utils.py:105-107 | The paragraph loop adds one paragraph per non-blank segment, in order. |
| DocumentFormats.SaveDocx | utils.py:98-113 | The body is a paragraph per non-blank segment in order, then a picture per image in order. |
| PdfLayout.PlaceText | utils.py:133-149 | Placing a text leaves at least one page. TextStep, PlaceTextValid and TextsFromPlaces state the page break, the margins and the content. |
| PdfLayout.TextsFrom | utils.py:133-149 | The text loop leaves at least one page. TextsFromValid and TextsFromPlaces state that it keeps the margins and places the non-blank texts in order. |
| PdfLayout.ImagesFrom | utils.py:152-177 | A successful image loop leaves at least one page. ImagesFromOk, ImagesFromStops and ImagesFromPlaces state when it fails and what it places. |
| PdfLayout.CountChar | utils.py:149 | `text.count(c)` is at most the length, and 0 exactly when `c` does not occur. |
| PdfLayout.ImageHeight | utils.py:165 | The image height is at most 300. It is not negative when the page is at least 100 wide. |
| PdfLayout.PlaceImage | utils.py:158-177 | Placing an image succeeds exactly when its pixel width is positive. Width 0 is the division error. |
| PdfLayout.SavePdf | utils.py:117-177 | The two loops produce the layout of the layout functions, or the division error. |
| PdfLayout.AddTexts | utils.py:133-149 | The text loop from one empty page at y = 50 produces the text layout. |
| PdfLayout.AddImages | utils.py:152-177 | The image loop continues the layout, and stops with the error at the first image of width 0. |
| PdfLayout.AddImage | utils.py:158-177 | One image is placed exactly when its width is positive, as the layout function places it. |
| PdfLayout.ImagesFromStops | utils.py:165 | An image of width 0 ends the whole image loop with the division error. |
| PdfLayout.ImagesFromErr | utils.py:152-177 | Once the image loop has failed, later images do not matter. |
| PdfLayout.TextStep | utils.py:133-149 | A blank text changes nothing. Otherwise a page opens exactly when `y + 15 > height - 50`; only the current page changes, and y moves down by at least 22.5 from where the text was placed. |
| PdfLayout.ImageStep | utils.py:158-177 | A page opens exactly when `y + 300 > height - 50`. Only the current page changes. On a page at least 100 wide, y moves down by at least 15 from where the image was placed. |
| PdfLayout.PlaceTextValid | utils.py:137-149 | On a page at least 115 high, placing a text keeps every placement within the margins. |
| PdfLayout.PlaceImageValid | utils.py:158-177 | On a page at least 400 by 100, placing an image keeps every placement within the margins. |
| PdfLayout.TextsFromValid | utils.py:133-149 | The text loop keeps the layout within the margins. |
| PdfLayout.ImagesFromValid | utils.py:152-177 | The image loop keeps the layout within the margins. |
| PdfLayout.SavePdfWithinMargins | utils.py:122-177 | On a page at least 400 by 100, every first text line ends above the bottom margin and every image lies within the margins. There is at least one page, and y never rises above the top margin. |
| PdfLayout.TextsFromPlaces | utils.py:133-149 | The text loop adds exactly the non-blank texts, in order, and no image. |
| PdfLayout.PlaceImageContents | utils.py:158-177 | Placing an image adds exactly that image and no text. |
| PdfLayout.ImagesFromPlaces | utils.py:152-177 | A finished image loop adds exactly the images, in order, and no text. |
| PdfLayout.ImagesFromOk | utils.py:152-177 | The image loop finishes exactly when every image has a positive width. |
| PdfLayout.SavePdfContents | utils.py:117-177 | The document succeeds exactly when every image width is positive. It then holds the non-blank texts in order, and every image in order. |

## Left out

- The transformers pipelines, spaCy and NLTK: they are oracle parameters. The model covers
  only what the code does with their answers.
- `_preprocess_image` (image_filter.py:38-52), the PIL resize: it is left out. Its
  exception is the `PreprocessRaised` probe.
- The OpenCV HSV conversion and red mask: the red and total pixel counts are inputs. An
  image with 0 pixels never reaches the mask: `_preprocess_image` divides by its width and
  height (image_filter.py:48) and raises, which is the `PreprocessRaised` probe.
- File and library I/O: opening and saving docx and PDF files, PIL decoding, PNG
  re-encoding, RGB conversion, and `readlines`. `extract_docx_content`, `extract_txt_content`
  and the image half of `extract_pdf_content` are I/O only. The block texts of a PDF page
  are the input of `ExtractPdfTexts`.
- document_processor.py, app.py and run_filter.py: they are orchestration, UI and CLI, and
  are not part of this model.
- The unused `inappropriate_categories` table and every `print`: they are left out.
- `filter_image`'s own `except` branch (image_filter.py:156-158): `_is_inappropriate`
  already catches every exception, so that branch is not modelled.
- A toxicity classifier that raises: text_filter.py does not guard it. The exception aborts
  the document, and the model has no such path.
- Strings.IsAlpha: letters above U+00FF need the Unicode database, so they count as
  non-letters there. Strings.IsAlnum does the same for letters and digits above U+00FF.
- TextFilter.CountSpecial: every character above U+00FF counts as special. Python counts
  Cyrillic, Greek, CJK and other letters and digits as alphanumeric (text_filter.py:55-57).
- TextFilter.IsBinaryContent: because of that, a segment mostly made of letters above
  U+00FF, such as a Cyrillic or Greek word, is binary in the model but not in the source.
- TextFilter.IsValidText: such a segment is invalid in the model, so `filter_texts` writes
  a bare `"\n"` for it and `get_content_stats` skips it. In the source it goes to the
  toxicity classifier and the blocklist.
- Strings.Lower: it lowers only ASCII and Latin-1 capitals. That is exact for the blocklist,
  the three extensions and the NSFW labels. It is not exact for the violence keyword
  `knife`: Python lowers the Kelvin sign U+212A to `k`, so a label `\u212Anife` is a hit in
  the source (image_filter.py:105-108) but not in the model.
- DocumentFormats.Extension: it follows POSIX `os.path.splitext`, where `/` is the only
  separator. On Windows `\` also separates.
- PdfLayout.ImageHeight: coordinates are exact reals. Floating-point rounding of
  `width * h / w` is not modelled.
- PdfLayout.PlaceImage: PyMuPDF's own rejection of an empty or inverted image rectangle is
  not modelled. That happens when the page is narrower than 100 points or the image height is 0.
- PdfLayout.Fits: the source checks only the first line of a text against the bottom
  margin. Later lines of a text with line breaks may cross it, and the model states only
  what the source checks.
