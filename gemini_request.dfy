/**
 * The request side of the command-line bot: the prompt sent to the model, the
 * model id placed in the request URL, and the choice of the first listed model
 * that advertises `generateContent`.
 *
 * The HTTP calls are not modelled: the list of models is an input, already
 * read from the listing response.
 */
module GeminiRequest {
  import opened Text

  /** The fixed system instruction at the head of every prompt. */
  const SystemPrompt := "You are a strict Compliance Auditor. Answer the question ONLY using the facts from the document provided below. If the answer is not in the text, say 'EVIDENCE NOT FOUND'. Quote the specific sentence from the text as proof."

  const QuestionLabel := "Question: "

  /** The prefix the listing puts in front of model names. */
  const ModelsPrefix := "models/"

  /** Model id used when no model name is given. */
  const DefaultModelId := "gemini-2.5-flash"

  /** Model name used by `main` when discovery finds nothing or fails. */
  const FallbackModelName := "models/gemini-2.5-flash"

  /** The generation method a model must advertise to be chosen. */
  const GenerateContent := "generateContent"

  /** The prompt layout of `askGemini` around a given instruction. */
  function PromptWith(instruction: string, pdfContext: string, question: string): (p: string)
    ensures StartsWith(p, instruction + "\n\n")
    ensures EndsWith(p, "\n\n" + QuestionLabel + question)
    ensures |p| == |instruction| + |pdfContext| + |question| + 14
    ensures p[|instruction| + 2..|instruction| + 2 + |pdfContext|] == pdfContext
  {
    instruction + "\n\n" + pdfContext + "\n\n" + QuestionLabel + question
  }

  /** The combined prompt built in `askGemini`: the fixed instruction, the document, the question. */
  function BuildPrompt(pdfContext: string, question: string): string {
    PromptWith(SystemPrompt, pdfContext, question)
  }

  /**
   * The document text and the question can be read back from a prompt, given
   * the length of either one: different inputs give different prompts.
   */
  lemma PromptDeterminesParts(instruction: string, d1: string, q1: string, d2: string, q2: string)
    requires PromptWith(instruction, d1, q1) == PromptWith(instruction, d2, q2)
    requires |d1| == |d2| || |q1| == |q2|
    ensures d1 == d2 && q1 == q2
  {
    var head, middle := instruction + "\n\n", "\n\n" + QuestionLabel;
    assert PromptWith(instruction, d1, q1) == head + d1 + middle + q1 + "";
    assert PromptWith(instruction, d2, q2) == head + d2 + middle + q2 + "";
    FramedPartsDetermined(head, middle, "", d1, q1, d2, q2);
  }

  /** The prompt for the document "DOC" and the question "Q?": the instruction, then "\n\nDOC\n\nQuestion: Q?". */
  lemma PromptExample()
    ensures BuildPrompt("DOC", "Q?") == SystemPrompt + "\n\nDOC\n\nQuestion: Q?"
  {
  }

  /** Removes one leading "models/", if there is one (`replaceFirst("^models/", "")`). */
  function StripModelsPrefix(name: string): (id: string)
    ensures StartsWith(name, ModelsPrefix) ==> ModelsPrefix + id == name
    ensures !StartsWith(name, ModelsPrefix) ==> id == name
  {
    if StartsWith(name, ModelsPrefix) then name[|ModelsPrefix|..] else name
  }

  /** Stripping undoes adding the prefix, once: "models/models/x" becomes "models/x". */
  lemma StripUndoesPrefix(id: string)
    ensures StripModelsPrefix(ModelsPrefix + id) == id
  {
    assert StartsWith(ModelsPrefix + id, ModelsPrefix);
  }

  /** The model id of `askGemini`: the default for a null name, otherwise the name without its prefix. */
  function ModelId(modelName: Option<string>): (id: string)
    ensures modelName.None? ==> id == DefaultModelId
    ensures modelName.Some? && StartsWith(modelName.value, ModelsPrefix) ==> ModelsPrefix + id == modelName.value
    ensures modelName.Some? && !StartsWith(modelName.value, ModelsPrefix) ==> id == modelName.value
  {
    match modelName
    case None => DefaultModelId
    case Some(n) => StripModelsPrefix(n)
  }

  /** One entry of the model listing: its name and its generation methods, each possibly absent. */
  datatype ListedModel = ListedModel(name: Option<string>, methods: Option<seq<string>>)

  /** The entry advertises `generateContent`. */
  predicate Advertises(m: ListedModel) {
    m.methods.Some? && GenerateContent in m.methods.value
  }

  /** Index of the first entry that advertises `generateContent`. */
  function FirstAdvertising(models: seq<ListedModel>): (r: Option<nat>)
    ensures r.Some? ==> r.value < |models| && Advertises(models[r.value])
                        && forall k :: 0 <= k < r.value ==> !Advertises(models[k])
    ensures r.None? ==> forall k :: 0 <= k < |models| ==> !Advertises(models[k])
  {
    if models == [] then None
    else if Advertises(models[0]) then Some(0)
    else match FirstAdvertising(models[1..])
      case Some(k) => Some(k + 1)
      case None => None
  }

  /**
   * The selection loop of `chooseModelForGenerateContent`: without a "models"
   * entry the result is null; otherwise the name of the first model whose
   * methods contain `generateContent` (null when that model has no name, and
   * the search stops there), or null when none does.
   */
  method ChooseModelForGenerateContent(models: Option<seq<ListedModel>>) returns (r: Option<string>)
    ensures models.None? ==> r.None?
    ensures models.Some? ==> r == match FirstAdvertising(models.value)
                                 case Some(k) => models.value[k].name
                                 case None => None
  {
    if models.None? {
      return None;
    }
    var ms := models.value;
    for i := 0 to |ms|
      invariant forall k :: 0 <= k < i ==> !Advertises(ms[k])
    {
      var m := ms[i];
      if m.methods.None? {
        continue;
      }
      var methods := m.methods.value;
      for j := 0 to |methods|
        invariant GenerateContent !in methods[..j]
      {
        if methods[j] == GenerateContent {
          assert Advertises(m);
          return m.name;
        }
        assert methods[..j + 1] == methods[..j] + [methods[j]];
      }
      assert methods[..|methods|] == methods;
    }
    return None;
  }

  /** How model discovery ended in `main`. */
  datatype Discovery = Discovered(name: Option<string>) | DiscoveryFailed

  /** The model name `main` passes on: the discovered one, or the fallback. */
  function MainModelName(d: Discovery): (name: string)
    ensures d.Discovered? && d.name.Some? ==> name == d.name.value
    ensures d.DiscoveryFailed? || d.name.None? ==> name == FallbackModelName
  {
    if d.Discovered? && d.name.Some? then d.name.value else FallbackModelName
  }

  /**
   * The fallback name of `main` leads to the same model id as the null default
   * of `askGemini`, so every path ends at "gemini-2.5-flash" unless a model was
   * discovered.
   */
  lemma MainModelIdAgreesWithDefault(d: Discovery)
    ensures ModelId(Some(MainModelName(d))) ==
            if d.Discovered? && d.name.Some? then StripModelsPrefix(d.name.value) else ModelId(None)
  {
    if !(d.Discovered? && d.name.Some?) {
      StripUndoesPrefix(DefaultModelId);
    }
  }
}
