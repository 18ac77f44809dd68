/**
 * The Gemini side of the Streamlit app: the user prompt asking for a JSON
 * reply, the recovery of the first `{...}` block from the reply, the audit row
 * built from it, and the choice of a model in "Auto" mode.
 *
 * The model call and the model listing are not modelled: the reply text and
 * the listing are inputs. JSON decoding is a parameter `parse` giving, for
 * the extracted block, either nothing (`json.loads` raised) or the two
 * fields as `str()` renders them, each possibly absent.
 */
module AppGemini {
  import opened Text
  import GeminiRequest

  /** The instruction closing every user prompt. */
  const ReplyInstruction := "Return ONLY a JSON object with keys: \"audit_finding\" and \"evidence\". The value of \"evidence\" must be an exact sentence copied from DOCUMENT (verbatim quote). If the answer cannot be supported from DOCUMENT, set BOTH values to 'EVIDENCE NOT FOUND'."

  const DocumentHeader := "DOCUMENT:\n"

  const QuestionHeader := "QUESTION:\n"

  /** The layout of the user prompt of `ask_gemini` around a given closing instruction. */
  function UserPromptWith(closing: string, documentText: string, question: string): (p: string)
    ensures StartsWith(p, DocumentHeader + documentText + "\n\n" + QuestionHeader)
    ensures EndsWith(p, question + "\n\n" + closing)
    ensures |p| == |DocumentHeader| + |documentText| + |QuestionHeader| + |question| + |closing| + 4
  {
    DocumentHeader + documentText + "\n\n" + QuestionHeader + question + "\n\n" + closing
  }

  /** The user prompt of `ask_gemini`; the system instruction travels separately. */
  function UserPrompt(documentText: string, question: string): string {
    UserPromptWith(ReplyInstruction, documentText, question)
  }

  /** The document and the question can be read back from a user prompt, given the document's length. */
  lemma UserPromptDeterminesParts(closing: string, d1: string, q1: string, d2: string, q2: string)
    requires UserPromptWith(closing, d1, q1) == UserPromptWith(closing, d2, q2) && |d1| == |d2|
    ensures d1 == d2 && q1 == q2
  {
    var middle, tail := "\n\n" + QuestionHeader, "\n\n" + closing;
    assert UserPromptWith(closing, d1, q1) == DocumentHeader + d1 + middle + q1 + tail;
    assert UserPromptWith(closing, d2, q2) == DocumentHeader + d2 + middle + q2 + tail;
    FramedPartsDetermined(DocumentHeader, middle, tail, d1, q1, d2, q2);
  }

  /** What `ask_gemini` hands to the client: the model, the system instruction and the user prompt. */
  datatype GeminiCall = GeminiCall(model: string, systemInstruction: string, userPrompt: string)

  /**
   * The request side of `ask_gemini`: one leading "models/" is removed from
   * the model name, the fixed auditor instruction goes as the system
   * instruction, and the user prompt carries the document and the question.
   */
  function AskGeminiCall(modelName: string, documentText: string, question: string): (call: GeminiCall)
    ensures StartsWith(modelName, GeminiRequest.ModelsPrefix) ==> GeminiRequest.ModelsPrefix + call.model == modelName
    ensures !StartsWith(modelName, GeminiRequest.ModelsPrefix) ==> call.model == modelName
    ensures call.systemInstruction == GeminiRequest.SystemPrompt
    ensures StartsWith(call.userPrompt, DocumentHeader + documentText + "\n\n" + QuestionHeader)
    ensures EndsWith(call.userPrompt, question + "\n\n" + ReplyInstruction)
    ensures call.userPrompt == UserPrompt(documentText, question)
  {
    GeminiCall(GeminiRequest.StripModelsPrefix(modelName), GeminiRequest.SystemPrompt, UserPrompt(documentText, question))
  }

  /**
   * `_extract_json_object`'s search for `\{[\s\S]*\}`: from the first '{' to
   * the last '}', when some '}' follows the first '{'.
   */
  function ExtractJsonSlice(text: string): (r: Option<string>)
    ensures r.None? <==> forall i, j :: 0 <= i < j < |text| ==> !(text[i] == '{' && text[j] == '}')
    ensures r.Some? ==> 2 <= |r.value| <= |text| && r.value[0] == '{' && r.value[|r.value| - 1] == '}'
  {
    var lo := IndexOf(text, '{');
    var hi := LastIndexOf(text, '}');
    if 0 <= lo < hi then Some(text[lo..hi + 1]) else None
  }

  /** The block is the slice from the first '{' of the text through its last '}'. */
  lemma JsonSliceBounds(text: string) returns (lo: nat, hi: nat)
    requires ExtractJsonSlice(text).Some?
    ensures lo < hi < |text| && ExtractJsonSlice(text).value == text[lo..hi + 1]
    ensures text[lo] == '{' && forall k :: 0 <= k < lo ==> text[k] != '{'
    ensures text[hi] == '}' && forall k :: hi < k < |text| ==> text[k] != '}'
  {
    lo, hi := IndexOf(text, '{'), LastIndexOf(text, '}');
  }

  /** Prose around an object is dropped when it holds no opening brace before and no closing brace after. */
  lemma ProseAroundObjectIsDropped(before: string, obj: string, after: string)
    requires '{' !in before && '}' !in after
    requires |obj| >= 2 && obj[0] == '{' && obj[|obj| - 1] == '}'
    ensures ExtractJsonSlice(before + obj + after) == Some(obj)
  {
    var text := before + obj + after;
    var lo := |before|;
    var hi := |before| + |obj| - 1;
    assert text[lo] == '{' && text[hi] == '}';
    assert forall k :: 0 <= k < lo ==> text[k] == before[k];
    assert forall k :: hi < k < |text| ==> text[k] == after[k - hi - 1];
    assert IndexOf(text, '{') == lo;
    assert LastIndexOf(text, '}') == hi;
    assert text[lo..hi + 1] == obj;
  }

  /** The two fields of a decoded reply as `str()` renders them; `None` when the key is missing. */
  datatype Reply = Reply(auditFinding: Option<string>, evidence: Option<string>)

  /** `_extract_json_object`: the decoded first `{...}` block, if there is one and it decodes. */
  function ExtractJsonObject(text: string, parse: string -> Option<Reply>): (r: Option<Reply>)
    ensures r.Some? ==> ExtractJsonSlice(text).Some? && r == parse(ExtractJsonSlice(text).value)
    ensures ExtractJsonSlice(text).Some? ==> r == parse(ExtractJsonSlice(text).value)
    ensures ExtractJsonSlice(text).None? ==> r.None?
  {
    match ExtractJsonSlice(text)
    case None => None
    case Some(block) => parse(block)
  }

  /** One row of the results table. */
  datatype AuditRow = AuditRow(filename: string, auditFinding: string, evidence: string)

  function FieldOr(field: Option<string>): string {
    if field.Some? then field.value else ""
  }

  /**
   * The post-processing of `ask_gemini`: the stripped reply text `raw`; with
   * a decoded object, its stripped finding (or `raw` when that is empty) and
   * its stripped evidence; otherwise `raw` as the finding and no evidence.
   * The file name is filled in by the caller.
   */
  function AskGeminiRow(respText: Option<string>, parse: string -> Option<Reply>, isSpace: char -> bool): (row: AuditRow)
    ensures row.filename == ""
    ensures var raw := Trim(FieldOr(respText), isSpace);
            ExtractJsonObject(raw, parse).None? ==> row.auditFinding == raw && row.evidence == ""
  {
    var raw := Trim(FieldOr(respText), isSpace);
    match ExtractJsonObject(raw, parse)
    case Some(reply) =>
      var finding := Trim(FieldOr(reply.auditFinding), isSpace);
      var evidence := Trim(FieldOr(reply.evidence), isSpace);
      AuditRow("", if finding == [] then raw else finding, evidence)
    case None =>
      AuditRow("", raw, "")
  }

  /**
   * The finding is empty exactly when the reply was blank, and both the
   * finding and the evidence carry no whitespace at either end.
   */
  lemma AskGeminiRowShape(respText: Option<string>, parse: string -> Option<Reply>, isSpace: char -> bool)
    ensures var row := AskGeminiRow(respText, parse, isSpace);
            (row.auditFinding == [] <==> IsBlank(FieldOr(respText), isSpace))
            && Trim(row.auditFinding, isSpace) == row.auditFinding
            && Trim(row.evidence, isSpace) == row.evidence
  {
    var raw := Trim(FieldOr(respText), isSpace);
    TrimIdempotent(FieldOr(respText), isSpace);
    match ExtractJsonObject(raw, parse) {
      case None =>
        TrimOfTrimmed([], isSpace);
      case Some(reply) =>
        assert |raw| >= 2;
        TrimIdempotent(FieldOr(reply.auditFinding), isSpace);
        TrimIdempotent(FieldOr(reply.evidence), isSpace);
    }
  }

  /** A decoded object with a non-blank finding gives that finding and that evidence, stripped. */
  lemma DecodedReplyIsUsed(respText: Option<string>, parse: string -> Option<Reply>, isSpace: char -> bool)
    requires var raw := Trim(FieldOr(respText), isSpace);
             ExtractJsonObject(raw, parse).Some?
             && !IsBlank(FieldOr(ExtractJsonObject(raw, parse).value.auditFinding), isSpace)
    ensures var reply := ExtractJsonObject(Trim(FieldOr(respText), isSpace), parse).value;
            AskGeminiRow(respText, parse, isSpace)
            == AuditRow("", Trim(FieldOr(reply.auditFinding), isSpace), Trim(FieldOr(reply.evidence), isSpace))
  {
  }

  /** A decoded object whose finding is blank gives the stripped reply as the finding, and its evidence stripped. */
  lemma BlankFindingFallsBackToRaw(respText: Option<string>, parse: string -> Option<Reply>, isSpace: char -> bool)
    requires var raw := Trim(FieldOr(respText), isSpace);
             ExtractJsonObject(raw, parse).Some?
             && IsBlank(FieldOr(ExtractJsonObject(raw, parse).value.auditFinding), isSpace)
    ensures var raw := Trim(FieldOr(respText), isSpace);
            var reply := ExtractJsonObject(raw, parse).value;
            AskGeminiRow(respText, parse, isSpace) == AuditRow("", raw, Trim(FieldOr(reply.evidence), isSpace))
  {
  }

  // ---------------------------------------------------------------------------
  // choose_model

  /** The choice that asks for the model listing. */
  const AutoChoice := "Auto (list models)"

  /** Model used when the listing offers nothing or fails, and the name given to a nameless entry. */
  const AppFallbackModel := "gemini-1.5-flash"

  /**
   * One step of iterating the listing: an entry with its name (possibly
   * absent) and its methods (absent ones read as none), or an exception.
   */
  datatype ListingStep = Listed(name: Option<string>, methods: seq<string>) | ListingRaises

  /** The step ends the search: it raises or advertises `generateContent`. */
  predicate Stops(step: ListingStep) {
    step.ListingRaises? || GeminiRequest.GenerateContent in step.methods
  }

  /** Index of the first step that ends the search. */
  function FirstStop(listing: seq<ListingStep>): (r: Option<nat>)
    ensures r.Some? ==> r.value < |listing| && Stops(listing[r.value])
                        && forall k :: 0 <= k < r.value ==> !Stops(listing[k])
    ensures r.None? ==> forall k :: 0 <= k < |listing| ==> !Stops(listing[k])
  {
    if listing == [] then None
    else if Stops(listing[0]) then Some(0)
    else match FirstStop(listing[1..])
      case Some(k) => Some(k + 1)
      case None => None
  }

  /** The model chosen from a listing. */
  function ListedChoice(listing: seq<ListingStep>): string {
    match FirstStop(listing)
    case Some(k) =>
      if listing[k].Listed? && listing[k].name.Some? then listing[k].name.value else AppFallbackModel
    case None => AppFallbackModel
  }

  /**
   * `choose_model`: any choice but "Auto (list models)" is returned as it is;
   * in Auto mode, the name of the first listed model advertising
   * `generateContent` ("gemini-1.5-flash" when it has none), or
   * "gemini-1.5-flash" when none does before the end or an exception.
   */
  method ChooseModel(preferred: string, listing: seq<ListingStep>) returns (r: string)
    ensures preferred != AutoChoice ==> r == preferred
    ensures preferred == AutoChoice ==> r == ListedChoice(listing)
  {
    if preferred != AutoChoice {
      return preferred;
    }
    for i := 0 to |listing|
      invariant forall k :: 0 <= k < i ==> !Stops(listing[k])
    {
      match listing[i] {
        case ListingRaises =>
          return AppFallbackModel;
        case Listed(name, methods) =>
          if GeminiRequest.GenerateContent in methods {
            return if name.Some? then name.value else AppFallbackModel;
          }
      }
    }
    return AppFallbackModel;
  }

  /** An exception while listing hides every model after it. */
  lemma RaiseHidesLaterModels(before: seq<ListingStep>, after: seq<ListingStep>)
    requires forall k :: 0 <= k < |before| ==> !Stops(before[k])
    ensures ListedChoice(before + [ListingRaises] + after) == AppFallbackModel
  {
    var listing := before + [ListingRaises] + after;
    assert forall k :: 0 <= k < |before| ==> listing[k] == before[k];
    assert Stops(listing[|before|]);
  }

  /** The same listing as the command-line bot reads it. */
  function AsListedModels(listing: seq<ListingStep>): (models: seq<GeminiRequest.ListedModel>)
    requires forall k :: 0 <= k < |listing| ==> listing[k].Listed?
    ensures |models| == |listing|
    ensures forall k :: 0 <= k < |listing| ==>
              models[k] == GeminiRequest.ListedModel(listing[k].name, Some(listing[k].methods))
  {
    seq(|listing|, k requires 0 <= k < |listing| => GeminiRequest.ListedModel(listing[k].name, Some(listing[k].methods)))
  }

  /** Over a listing that does not fail, the first stop is the first advertising model. */
  lemma {:induction false} FirstStopIsFirstAdvertising(listing: seq<ListingStep>, models: seq<GeminiRequest.ListedModel>)
    requires |models| == |listing|
    requires forall k :: 0 <= k < |listing| ==> (Stops(listing[k]) <==> GeminiRequest.Advertises(models[k]))
    ensures FirstStop(listing) == GeminiRequest.FirstAdvertising(models)
  {
    if listing != [] {
      FirstStopIsFirstAdvertising(listing[1..], models[1..]);
    }
  }

  /**
   * The app and the command-line bot pick the same model from a listing that
   * does not fail, except that where the bot returns null (no advertising
   * model, or a nameless one) the app returns "gemini-1.5-flash".
   */
  lemma ChoiceAgreesWithCommandLineBot(listing: seq<ListingStep>)
    requires forall k :: 0 <= k < |listing| ==> listing[k].Listed?
    ensures var models := AsListedModels(listing);
            var first := GeminiRequest.FirstAdvertising(models);
            ListedChoice(listing) ==
              if first.Some? && models[first.value].name.Some? then models[first.value].name.value
              else AppFallbackModel
  {
    var models := AsListedModels(listing);
    assert forall k :: 0 <= k < |listing| ==> (Stops(listing[k]) <==> GeminiRequest.Advertises(models[k]));
    FirstStopIsFirstAdvertising(listing, models);
  }
}
