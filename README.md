# AuditBot decision logic in Dafny

AuditBot answers a compliance question about a PDF policy document. It comes in
two front ends. `SimpleAuditBot` is a Java command-line program; `app.py` is a
Streamlit app. Both work the same way:

1. extract the document's selectable text;
2. fall back to OCR when that text is too short;
3. send the text and the question to a Gemini model;
4. turn the reply into an answer or an audit row.

This project models the decision logic of both front ends and proves what each
step promises. The PDF library, the OCR engine, the model listing and the model
reply are inputs to the model.

Modules:

- `Text` (text.dfy): trimming by a whitespace predicate, blankness,
  prefixes and suffixes, first and last index, and joining. Java's `trim()` gets
  its exact character class, code points up to U+0020. Java's `isBlank()` and
  Python's `strip()` take their whitespace class as a parameter.
- `AnswerLocator` (answer_locator.dfy): `findTextInJson` is a depth-first search
  of a JSON tree. It is proved equal to "the first of all candidate strings in
  pre-order", and the candidates are proved to be exactly the strings stored
  under a key equal to "text", ignoring case. Also modelled: `tryExtractTextField`
  and the output choice in `main`.
- `PdfExtraction` (pdf_extraction.dfy): `extractTextFromPDF` and `performOCR` as
  imperative methods.
  - A `PdfFile` class stands for the file. It fixes what loading, text
    stripping and per-page rendering and recognition yield.
  - Ghost counters on the file record how many document handles are open and how
    often the file was loaded. This is how "both documents are closed on every
    path" and "OCR runs only when the threshold is missed" are stated.
- `GeminiRequest` (gemini_request.dfy): the prompt of `askGemini`, the model id
  put in the request URL, the selection loop of `chooseModelForGenerateContent`,
  and the fallback model name of `main`.
- `DotEnv` (dot_env.dfy): `loadDotEnv` as a loop over the file's lines. The
  resulting map is proved to hold each key's last value before the first line
  that throws.
- `AppStrings` (app_strings.dfy): `_clean_text` and `_safe_str`. Both regular
  expression substitutions of `_clean_text` are written out as recursive
  functions. Cleaning is proved to normalise its input and to be idempotent.
- `AppExtraction` (app_extraction.dfy): `extract_pdf_text` and `ocr_pdf_text` as
  loop methods, proved against specification functions.
- `AppGemini` (app_gemini.dfy): covers these parts of `app.py`:
  - what `ask_gemini` sends;
  - the `{...}` slice of `_extract_json_object`;
  - the post-processing of the reply into an `AuditRow`;
  - `choose_model`, related to the Java selection loop.

Points where the code's behaviour is easy to misread:

- **Key order in an object is not fixed.** `JSONObject.keySet()` is backed by a
  hash map, so the iteration order of `findTextInJson` need not be the order of
  the response text. The model takes the pair order as given and proves "first
  in that order".
- **Non-blank OCR text can trim to nothing.** The fallback tests the OCR text
  with `isBlank()` (Unicode whitespace) and then returns it `trim()`-ed (every
  character up to U+0020). So OCR text made of control characters such as
  U+0000 is not blank, yet it trims to "" and replaces the short text. This is
  stated in `PdfExtraction.NonBlankOcrCanTrimToEmpty`.
- **The 50-character threshold counts UTF-16 code units.** `String.length()`
  counts a character outside the Basic Multilingual Plane twice, so 25 such
  characters already meet the threshold. The model measures text with
  `Text.Utf16Length`; see `PdfExtraction.SupplementaryCharactersCountTwice`.
- **The Python app uses the same system instruction as the Java bot.** Its
  `SYSTEM_PROMPT` is the same text as the Java `systemPrompt`, so both are
  modelled by the one constant `GeminiRequest.SystemPrompt`.

## Model

| member | source | states |
|---|---|---|
| `Text.IndexOf` | app.py:118-120 | the result is -1 exactly when the character does not occur, otherwise the index of its first occurrence |
| `Text.LastIndexOf` | app.py:118-120 | the result is -1 exactly when the character does not occur, otherwise the index of its last occurrence |
| `Text.Trim` | src/main/java/SimpleAuditBot.java:200 | the result is no longer than the input, is empty exactly when the input is blank, and otherwise neither starts nor ends with a removable character |
| `Text.TrimIdempotent` | app.py:42 | trimming a trimmed string changes nothing |
| `Text.TrimPadded` | src/main/java/SimpleAuditBot.java:56-57 | a string with no whitespace at either end, padded with whitespace on both sides, trims back to itself |
| `Text.TrimIsSlice` | src/main/java/SimpleAuditBot.java:56-57 | the trimmed string is a contiguous slice of the original, and everything cut off before and after it is whitespace: only leading and trailing whitespace is removed |
| `Text.JoinStartsWithFirst` | app.py:73 | a join of non-empty parts starts with the first part |
| `Text.JoinEndsWithLast` | app.py:73 | a join of non-empty parts ends with the last part |
| `Text.Utf16Length` | src/main/java/SimpleAuditBot.java:202 | the UTF-16 length lies between the character count and twice it |
| `Text.Utf16LengthOfChar` | src/main/java/SimpleAuditBot.java:202 | one character takes two code units above U+FFFF and one otherwise |
| `Text.Utf16LengthAppend` | src/main/java/SimpleAuditBot.java:202 | the UTF-16 length of a concatenation is the sum of the parts' lengths; with `Utf16LengthOfChar` this fixes the length of every string |
| `Text.Utf16LengthOfBasic` | src/main/java/SimpleAuditBot.java:202 | text whose every character is in the Basic Multilingual Plane has as many code units as characters |
| `Text.Utf16LengthOfSupplementary` | src/main/java/SimpleAuditBot.java:202 | text with no character in the Basic Multilingual Plane has twice as many code units as characters |
| `AnswerLocator.FindTextIsFirstCandidate` | src/main/java/SimpleAuditBot.java:296-320 | first match wins: the search returns the first candidate in depth-first pre-order over pair and element order, and nothing when there is no candidate |
| `AnswerLocator.FindInPairsIsFirst` | src/main/java/SimpleAuditBot.java:299-309 | the loop over an object's pairs returns the first candidate of those pairs: a direct hit, or else what lies inside the value, before later siblings |
| `AnswerLocator.FindInItemsIsFirst` | src/main/java/SimpleAuditBot.java:310-317 | the loop over an array returns the first candidate in index order |
| `AnswerLocator.CandidatesAreTextStrings` | src/main/java/SimpleAuditBot.java:303-306 | a string is a candidate exactly when it is stored, at some depth, as a string under a key equal to "text" ignoring case |
| `AnswerLocator.NotFoundIffNoTextString` | src/main/java/SimpleAuditBot.java:297-298 | the search yields nothing exactly when no "text" key anywhere holds a string; scalars and null yield nothing |
| `AnswerLocator.FoundIsTextString` | src/main/java/SimpleAuditBot.java:303-304 | what the search returns is stored under a "text" key of the tree |
| `AnswerLocator.EarlierNestedMatchWins` | src/main/java/SimpleAuditBot.java:306-308 | a match nested inside an earlier pair wins over a later sibling "text" string |
| `AnswerLocator.TryExtractTextField` | src/main/java/SimpleAuditBot.java:286-294 | a body that does not parse gives no answer; otherwise the answer is the first candidate |
| `AnswerLocator.ReportText` | src/main/java/SimpleAuditBot.java:127-134 | the printed report is the first candidate when it exists and is not empty, otherwise the raw body |
| `AnswerLocator.EmptyFirstTextShadowsLater` | src/main/java/SimpleAuditBot.java:129-133 | an empty first "text" value shadows a later non-empty one, so the raw body is printed |
| `PdfExtraction.PdfDocument.GetText` | src/main/java/SimpleAuditBot.java:197-199 | text stripping on an open document yields the file's text layer, null, or the stripping error |
| `PdfExtraction.PdfDocument.PageCount` | src/main/java/SimpleAuditBot.java:227 | the page count is the number of pages of the file |
| `PdfExtraction.PdfDocument.RenderImage` | src/main/java/SimpleAuditBot.java:229 | rendering page i gives its image, or the rendering error naming page i |
| `PdfExtraction.PdfDocument.Close` | src/main/java/SimpleAuditBot.java:238-241 | closing releases the handle: the document is no longer open and the file has one open handle fewer |
| `PdfExtraction.Load` | src/main/java/SimpleAuditBot.java:196 | loading counts one load; it succeeds exactly for a loadable file, giving a fresh open handle that adds one open handle to the file |
| `PdfExtraction.PdfDocument.Opened` | src/main/java/SimpleAuditBot.java:196 | opening a document takes one more handle on its file and counts no load |
| `PdfExtraction.FirstRenderFailure` | src/main/java/SimpleAuditBot.java:228-229 | the index of the first page that cannot be rendered, every earlier page rendering; none when all pages render |
| `PdfExtraction.PerformOcr` | src/main/java/SimpleAuditBot.java:212-243 | the result is the in-order accumulation of each recognised page text plus a line separator, or the load or first render error; the handle is closed on every path, and the file is loaded once |
| `PdfExtraction.RecognisePages` | src/main/java/SimpleAuditBot.java:226-236 | on an open document, the page loop gives the OCR outcome: the first rendering error, or the in-order accumulation of every page's contribution |
| `PdfExtraction.RecognisePage` | src/main/java/SimpleAuditBot.java:228-235 | one page gives its rendering error, or its recognised text plus a line separator, or nothing when recognition throws or yields null |
| `PdfExtraction.ExtractTextFromPdf` | src/main/java/SimpleAuditBot.java:194-209 | the result is the extraction outcome (threshold rule on the UTF-16 length, with OCR fallback); every handle is released on every path, and the file is loaded a second time exactly when OCR runs |
| `PdfExtraction.AccumulatedSnoc` | src/main/java/SimpleAuditBot.java:233 | one more page appends its contribution at the end of the accumulated text |
| `PdfExtraction.RenderingPrefixGrows` | src/main/java/SimpleAuditBot.java:227-233 | a page that renders keeps a prefix free of rendering failures and appends its contribution to the text |
| `PdfExtraction.OcrOutcomeAfterRenderingPrefix` | src/main/java/SimpleAuditBot.java:227-228 | a page that cannot be rendered, after pages that all render, is the error `performOCR` reports |
| `PdfExtraction.SkippedPageContributesNothing` | src/main/java/SimpleAuditBot.java:230-236 | a page whose recognition throws or yields null leaves the text as if the page were absent |
| `PdfExtraction.NoRecognisedTextGivesEmpty` | src/main/java/SimpleAuditBot.java:213-242 | with no recognised page text, including zero pages, the accumulated text is "" |
| `PdfExtraction.BlankPagesAccumulateBlank` | src/main/java/SimpleAuditBot.java:227-237 | when every page contributes nothing or a blank text, the accumulated OCR text is blank |
| `PdfExtraction.ThirdPageFailureIsSkipped` | src/main/java/SimpleAuditBot.java:230-236 | three pages where recognition of the third throws give the first two texts in order, each followed by a line separator |
| `PdfExtraction.LongTextSkipsOcr` | src/main/java/SimpleAuditBot.java:202-207 | with a trimmed text of at least 50 UTF-16 code units the result is that text whatever the pages would do, and OCR is not invoked |
| `PdfExtraction.ShortTextReplacedByOcr` | src/main/java/SimpleAuditBot.java:202-205 | below 50 UTF-16 code units, non-blank OCR text replaces the short text, trimmed |
| `PdfExtraction.ShortTextKeptWhenOcrYieldsNothing` | src/main/java/SimpleAuditBot.java:205 | below 50 UTF-16 code units, when every page renders and each recognised page text is blank (or none is recognised), the short trimmed text is returned unchanged |
| `PdfExtraction.RenderFailureIsNotMasked` | src/main/java/SimpleAuditBot.java:229 | a page that cannot be rendered during the fallback makes extraction fail with a rendering error; the short text is not substituted |
| `PdfExtraction.ExtractedTextIsTrimmed` | src/main/java/SimpleAuditBot.java:200-205 | a successful result never starts or ends with a character `trim()` removes |
| `PdfExtraction.NonBlankOcrCanTrimToEmpty` | src/main/java/SimpleAuditBot.java:205 | OCR text that is only U+0000 and a line feed is not blank but trims to "", which then replaces the short text |
| `PdfExtraction.SupplementaryCharactersCountTwice` | src/main/java/SimpleAuditBot.java:202 | 25 characters outside the Basic Multilingual Plane meet the 50-unit threshold: the text is returned and OCR is not invoked |
| `GeminiRequest.PromptWith` | src/main/java/SimpleAuditBot.java:247 | the prompt starts with the instruction and a blank line, ends with a blank line, "Question: " and the question, holds the document text right after the blank line, and is 14 characters longer than its three parts |
| `GeminiRequest.PromptDeterminesParts` | src/main/java/SimpleAuditBot.java:247 | given the length of the document text or of the question, the prompt determines both |
| `GeminiRequest.PromptExample` | src/main/java/SimpleAuditBot.java:246-247 | the prompt for document "DOC" and question "Q?" is the instruction followed by "\n\nDOC\n\nQuestion: Q?" |
| `GeminiRequest.StripModelsPrefix` | src/main/java/SimpleAuditBot.java:265 | a name starting with "models/" loses exactly that prefix; any other name is kept |
| `GeminiRequest.StripUndoesPrefix` | src/main/java/SimpleAuditBot.java:265 | stripping undoes adding one "models/" prefix, and only one |
| `GeminiRequest.ModelId` | src/main/java/SimpleAuditBot.java:265 | the model id is "gemini-2.5-flash" for a null name, otherwise the name without one leading "models/" |
| `GeminiRequest.FirstAdvertising` | src/main/java/SimpleAuditBot.java:178-189 | the index of the first listed model whose methods contain "generateContent", none before it doing so; none when no model does |
| `GeminiRequest.ChooseModelForGenerateContent` | src/main/java/SimpleAuditBot.java:174-190 | without a "models" entry the result is null; otherwise it is the name of the first advertising model (null if it has none), or null when no model advertises |
| `GeminiRequest.MainModelIdAgreesWithDefault` | src/main/java/SimpleAuditBot.java:93-106 | `main` uses the discovered name or the fallback "models/gemini-2.5-flash", and the fallback leads to the same model id as a null name |
| `DotEnv.Unquote` | src/main/java/SimpleAuditBot.java:59-60 | one pair of matching surrounding quotes is removed and other values are kept; a lone quote character throws |
| `DotEnv.ParseLineSkips` | src/main/java/SimpleAuditBot.java:50-55 | a line is skipped exactly when, trimmed, it is empty, starts with '#' or '=', or holds no '=' |
| `DotEnv.ParseLineEntry` | src/main/java/SimpleAuditBot.java:50-62 | a line made of a key with no '=' that does not start with '#', then '=', then a value, with any whitespace before and after the key and the value, stores the key without its padding and the unpadded value less one pair of matching quotes, and throws when the unpadded value is a lone quote |
| `DotEnv.ParseSplitLine` | src/main/java/SimpleAuditBot.java:50-62 | a line whose trimmed form splits at its first '=' after a non-empty key stores the trimmed key with the trimmed, unquoted rest |
| `DotEnv.DoubleQuotedValueIsUnquoted` | src/main/java/SimpleAuditBot.java:59-62 | `key="v"` stores `v` under the key |
| `DotEnv.EntryKeyWellFormed` | src/main/java/SimpleAuditBot.java:50-56 | a stored key is not empty, holds no '=' and has no surrounding whitespace |
| `DotEnv.KeyBeforeFirstEquals` | src/main/java/SimpleAuditBot.java:53-56 | the trimmed text before the first '=' of a trimmed line is a non-empty key without '=' |
| `DotEnv.LoadDotEnv` | src/main/java/SimpleAuditBot.java:42-68 | the loaded map is what gathering the lines' effects from the empty map gives; a throwing line ends reading and keeps what was gathered |
| `DotEnv.GatherLookup` | src/main/java/SimpleAuditBot.java:62 | after gathering, a key is present exactly when some entry before the first throw set it or it was there before, and its value is the last such entry's |
| `DotEnv.LoadedValueIsLast` | src/main/java/SimpleAuditBot.java:62 | a later duplicate key overwrites an earlier one: the map holds each key's last value before any throw |
| `DotEnv.ThrowStopsReading` | src/main/java/SimpleAuditBot.java:64-66 | nothing after a line that throws is read |
| `DotEnv.LoneQuoteThrows` | src/main/java/SimpleAuditBot.java:59-60 | the line `KEY='` throws |
| `AppStrings.ReplaceNul` | app.py:39 | the length is kept, every U+0000 becomes a space, and every other character is kept in place |
| `AppStrings.CollapseBlankRuns` | app.py:40 | no tab or carriage return remains, every character is a space or comes from the input, no two spaces are adjacent, and a leading run becomes a leading space |
| `AppStrings.CollapseBlankRunsKeepsOthers` | app.py:40 | the characters other than spaces, tabs and carriage returns are kept, in order |
| `AppStrings.CollapseBlankRunsSplit` | app.py:40 | a maximal run of spaces, tabs and carriage returns becomes one space and the text on both sides is collapsed independently |
| `AppStrings.CollapseBlankRunsAppend` | app.py:40 | text that does not end inside a run collapses independently of what follows |
| `AppStrings.CollapseLineFeedRuns` | app.py:41 | a non-empty input keeps its first character |
| `AppStrings.CollapseLineFeedRunsKeepsOthers` | app.py:41 | the characters other than line feeds are kept, in order |
| `AppStrings.CollapseLineFeedRunsSplit` | app.py:41 | a maximal run of three or more line feeds becomes "\n\n", a shorter run is kept, and the text on both sides is collapsed independently |
| `AppStrings.CollapseLineFeedRunsAppend` | app.py:41 | text that does not end in a line feed collapses independently of what follows |
| `AppStrings.CollapseLineFeedRunsChars` | app.py:41 | every output character comes from the input |
| `AppStrings.CollapseLineFeedRunsNoTriple` | app.py:41 | the output never has three consecutive line feeds |
| `AppStrings.CollapseLineFeedRunsKeepsNoDoubleSpace` | app.py:41 | an input without two adjacent spaces gives an output without them |
| `AppStrings.CleanTextIsNormalised` | app.py:37-42 | cleaned text holds no U+0000, tab or carriage return, no two adjacent spaces, no three consecutive line feeds, and no whitespace at either end |
| `AppStrings.ReplaceNulIdentity` | app.py:39 | on a string without U+0000 the substitution changes nothing |
| `AppStrings.CollapseBlankRunsIdentity` | app.py:40 | on a string without tabs, carriage returns or double spaces the substitution changes nothing |
| `AppStrings.CollapseLineFeedRunsIdentity` | app.py:41 | on a string without three consecutive line feeds the substitution changes nothing |
| `AppStrings.CleanTextIdempotent` | app.py:37-42 | cleaning cleaned text changes nothing |
| `AppStrings.SafeStr` | app.py:31-34 | the message is "type: message" when it has at most 4000 characters, otherwise its first 4000 characters |
| `AppExtraction.ImageTexts` | app.py:111-112 | one part per page image, in order: the recognised text, or "" for a falsy result |
| `AppExtraction.OcrPdfText` | app.py:97-113 | the result is the per-image texts joined with line feeds, or an error when rasterising or recognition raises |
| `AppExtraction.ReadSelectableText` | app.py:64-76 | the stripped non-empty page texts joined with blank lines and stripped; "" when the reader or any page raises |
| `AppExtraction.ExtractPdfText` | app.py:46-93 | the result is the extraction outcome: the threshold rule, the OCR fallback and the OCR flag |
| `AppExtraction.KeptPagesAreStripped` | app.py:69-72 | every kept page text is non-empty and has no whitespace at either end |
| `AppExtraction.JoinedPagesAreStripped` | app.py:73 | the final strip of the joined pages changes nothing |
| `AppExtraction.ThresholdMetSkipsOcr` | app.py:78-79 | with at least `threshold` characters the result is the cleaned selectable text with `False`, whatever OCR would do |
| `AppExtraction.ThresholdMissedUsesOcr` | app.py:81-90 | below the threshold, non-empty stripped OCR text gives that text cleaned, with `True` |
| `AppExtraction.ThresholdMissedKeepsSelectable` | app.py:92-93 | below the threshold, blank OCR text gives the cleaned selectable text, still with `True` |
| `AppExtraction.ExtractOutcomeShape` | app.py:78-93 | the flag is `True` exactly when the threshold was missed, and the text is always normalised with no whitespace at either end |
| `AppExtraction.PageRaiseDiscardsAll` | app.py:74-76 | a page that raises while its text is read discards the text of every page |
| `AppExtraction.OcrTextRunsFromFirstToLastImage` | app.py:110-113 | the OCR text starts with the first page image's text and ends with the last one's |
| `AppGemini.UserPromptWith` | app.py:139-147 | the user prompt starts with "DOCUMENT:\n", the document, a blank line and "QUESTION:\n"; ends with the question, a blank line and the closing instruction; and has exactly that length |
| `AppGemini.UserPromptDeterminesParts` | app.py:139-147 | given the document's length, the user prompt determines the document and the question |
| `AppGemini.AskGeminiCall` | app.py:130-146 | the model name loses one leading "models/", the system instruction is the fixed auditor text, and the user prompt is `UserPrompt` of the document and the question, which starts with the document and ends with the question and the reply instruction |
| `AppGemini.ExtractJsonSlice` | app.py:118-120 | there is no slice exactly when no '}' follows a '{'; a slice starts with '{', ends with '}' and is no longer than the text |
| `AppGemini.JsonSliceBounds` | app.py:118 | the slice runs from the first '{' of the text through its last '}' |
| `AppGemini.ProseAroundObjectIsDropped` | app.py:117-118 | prose without '{' before an object and without '}' after it is dropped |
| `AppGemini.ExtractJsonObject` | app.py:116-124 | the result is exactly the parse of the slice when there is one; no slice means no object |
| `AppGemini.AskGeminiRow` | app.py:150-163 | the file name is left empty, and without a decoded object the finding is the stripped reply and the evidence is "" |
| `AppGemini.AskGeminiRowShape` | app.py:150-163 | the finding is empty exactly when the reply is blank or missing, and the finding and the evidence have no whitespace at either end |
| `AppGemini.DecodedReplyIsUsed` | app.py:153-160 | a decoded object with a non-blank finding gives that finding and its evidence, both stripped |
| `AppGemini.BlankFindingFallsBackToRaw` | app.py:156-157 | a decoded object with a blank finding gives the stripped reply as the finding and the object's evidence, stripped |
| `AppGemini.FirstStop` | app.py:173-177 | the index of the first listing step that raises or advertises "generateContent", no earlier step doing either |
| `AppGemini.ChooseModel` | app.py:166-181 | a choice other than "Auto (list models)" is returned unchanged; in Auto mode the result is the name of the first advertising model, or "gemini-1.5-flash" when it has no name, when none advertises, or when listing raises first |
| `AppGemini.RaiseHidesLaterModels` | app.py:178-181 | an exception while listing hides every model after it, giving "gemini-1.5-flash" |
| `AppGemini.FirstStopIsFirstAdvertising` | app.py:173-177 | over a listing that does not fail, the first stop is the first advertising model |
| `AppGemini.ChoiceAgreesWithCommandLineBot` | app.py:166-181 | the app and the command-line bot pick the same model, except that where the bot returns null the app returns "gemini-1.5-flash" |

## Left out

- Network calls are not modelled: `listModels`, the HTTP request and response of `askGemini` and `chooseModelForGenerateContent`, and the `genai` calls of `app.py`. The model listing, the reply text and the response body are inputs.
- PDFBox, Tesseract, `pypdf`, `pdf2image` and `pytesseract` are not modelled. What they yield for a document is an input: per page, text, null or an exception.
- The Tesseract settings (language, data path, 300 DPI) and the app's DPI, language and poppler path options are not modelled; they only configure the engines.
- JSON tokenising (`JSONTokener`, `json.loads`) is not modelled. The Java model starts from the parsed tree or a parse failure. The app takes a `parse` parameter that gives the two fields as `str()` renders them. How `str()` renders a non-string value is therefore not modelled.
- The JSON request body built in `askGemini` is not modelled; only the prompt text it carries is.
- The regular expression engine is not modelled. The three patterns of `app.py` are written out as functions.
- Unicode whitespace classes are not modelled. `isBlank()` and `str.strip()` take a whitespace predicate as a parameter. Java's `trim()` is exact.
- `equalsIgnoreCase` is modelled with ASCII folding only. That decides every comparison with "text", since no non-ASCII character folds to its letters.
- `System.lineSeparator()` is modelled as "\n".
- Reading the `.env` file and splitting it into lines is not modelled. The lines are an input, and an absent file gives no lines. The exception message printed by the catch is not modelled.
- `GeminiRequest.ChooseModelForGenerateContent`: does not model the exceptions `getJSONObject`/`getString` raise on malformed entries, nor an HTTP error status. An entry whose methods are not all strings is not modelled.
- `PdfExtraction.PdfDocument.GetText`: the text stripper's position sorting is part of the library and is not modelled.
- The static initializer's API-key lookup (environment, then `.env`, then a placeholder) is not modelled. Neither are the Tesseract probe and the diagnostics printed by `main`.
- Console messages and the per-page OCR error report are not modelled.
- `askGemini`'s HTTP error path (non-success status) is not modelled.
- The Streamlit UI is not modelled: widgets, `st.cache_data`, the progress bar, the pandas table and CSV export, and the per-file loop of `main` with its error rows. The threshold is a `nat`, as the UI's minimum of 0 allows.
- `AppGemini.AskGeminiRow`: an exception from reading `resp.text` is not modelled; a missing or empty text is `None`.
- `Text.Trim`: its own contract states the result's ends and when it is empty; that exactly the leading and trailing whitespace is removed is stated by `Text.TrimIsSlice`.
- `AppStrings.CollapseBlankRuns`: its own contract states the shape of the result; that each run becomes one space and the other characters are kept in order is stated by `AppStrings.CollapseBlankRunsSplit` and `AppStrings.CollapseBlankRunsKeepsOthers`.
- `AppStrings.CollapseLineFeedRuns`: its own contract states only that the first character is kept; what each run becomes and that the other characters are kept in order is stated by `AppStrings.CollapseLineFeedRunsSplit` and `AppStrings.CollapseLineFeedRunsKeepsOthers`.
