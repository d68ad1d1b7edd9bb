/**
 * The server actions behind the translator and the chatbot. A translation
 * request is validated (a non-empty text and a catalogue dialect), rewritten
 * by the substitution engine, and handed to the external model; the action
 * packs the outcome into a success or an error record. The external model
 * and the chatbot model are parameters: total functions from a request to an
 * `Outcome`, where `Fail` stands for any exception the call raises.
 */
module Actions {
  import opened Strings
  import Languages
  import Rules

  /** What `formData.get(name)` returns: nothing, a string or an uploaded file. */
  datatype FormValue = Missing | Str(s: string) | Upload

  /** The zod issue kinds the two schemas can raise. */
  datatype Issue =
    | InvalidType                  // not a string (null or a file)
    | TooSmall(message: string)    // `min(1, message)` on the empty string
    | InvalidEnumValue             // a string outside the dialect values

  /** `error.flatten().fieldErrors`: the issues raised for each field. */
  datatype FieldErrors = FieldErrors(text: seq<Issue>, dialect: seq<Issue>)

  datatype Option<T> = None | Some(value: T)

  /** The parsed request of a successful `safeParse`. */
  datatype TranslateRequest = TranslateRequest(text: string, dialect: string)

  datatype Validation = Valid(request: TranslateRequest) | Invalid(errors: FieldErrors)

  /** A call to an external model: its value, or `Fail` when it throws. */
  datatype Outcome<T> = Ok(value: T) | Fail

  /** The external translation model's input and output records. */
  datatype ModelRequest = ModelRequest(text: string, dialect: string)
  datatype ModelOutput = ModelOutput(dialect: string, translated: string, confidence: real)

  datatype Kind = Success | Error

  /** The record `translateAction` returns. */
  datatype TranslateState = TranslateState(
    kind: Kind,
    message: string,
    errors: Option<FieldErrors>,
    translatedText: string,
    appliedRules: seq<string>,
    confidence: real)

  /** The record `chatbotAction` returns. */
  datatype ChatState = ChatState(kind: Kind, message: string)

  const TextEmptyMessage: string := "Text cannot be empty."
  const InvalidInputMessage: string := "Invalid input."
  const SuccessMessage: string := "Translation successful."
  const TranslationFailedMessage: string := "An unexpected error occurred during translation."
  const ChatFailedMessage: string := "An unexpected error occurred."

  /** `z.string().min(1, 'Text cannot be empty.')` on the text field. */
  function TextIssues(v: FormValue): (issues: seq<Issue>)
    ensures issues == [] <==> v.Str? && v.s != []
    ensures v.Str? && v.s == [] ==> issues == [TooSmall(TextEmptyMessage)]
  {
    match v
    case Str(s) => if |s| >= 1 then [] else [TooSmall(TextEmptyMessage)]
    case _ => [InvalidType]
  }

  /** `z.enum(dialectValues)` on the dialect field. */
  function DialectIssues(v: FormValue): (issues: seq<Issue>)
    ensures issues == [] <==> v.Str? && Languages.IsDialect(v.s)
    ensures |issues| <= 1
  {
    match v
    case Str(s) => if Languages.IsDialect(s) then [] else [InvalidEnumValue]
    case _ => [InvalidType]
  }

  /** `translateSchema.safeParse({text, dialect})`. */
  function Validate(text: FormValue, dialect: FormValue): (r: Validation)
    ensures r.Valid? <==> TextIssues(text) == [] && DialectIssues(dialect) == []
    ensures r.Valid? ==> text == Str(r.request.text) && dialect == Str(r.request.dialect)
  {
    var te := TextIssues(text);
    var de := DialectIssues(dialect);
    if te == [] && de == [] then Valid(TranslateRequest(text.s, dialect.s))
    else Invalid(FieldErrors(te, de))
  }

  /** The error record of a request that fails validation. */
  function InvalidState(errors: FieldErrors): TranslateState {
    TranslateState(Error, InvalidInputMessage, Some(errors), "", [], 0.0)
  }

  /** The error record of a failed model call; the rule trace is dropped. */
  const FailedState: TranslateState := TranslateState(Error, TranslationFailedMessage, None, "", [], 0.0)

  /** The request the external model receives for a valid request: the
      substitution engine's output and the dialect as given. */
  function ModelRequestFor(req: TranslateRequest): ModelRequest
    requires Languages.IsDialect(req.dialect)
  {
    ModelRequest(Rules.Transform(req.text, req.dialect).transformedText, req.dialect)
  }

  /** `translateAction`: validation, then the rule pass, then the model. */
  function TranslateAction(text: FormValue, dialect: FormValue, model: ModelRequest -> Outcome<ModelOutput>): (st: TranslateState)
    ensures st.kind == Error ==> st.translatedText == "" && st.appliedRules == [] && st.confidence == 0.0
    ensures st.kind == Success ==> st.message == SuccessMessage && st.errors == None
  {
    match Validate(text, dialect)
    case Invalid(errors) => InvalidState(errors)
    case Valid(req) =>
      var rules := Rules.Transform(req.text, req.dialect);
      match model(ModelRequestFor(req))
      case Ok(out) => TranslateState(Success, SuccessMessage, None, out.translated, rules.appliedRules, out.confidence)
      case Fail => FailedState
  }

  /** `chatbotAction`: `min(1)` on the message, then the chatbot model. */
  function ChatbotAction(message: string, chat: string -> Outcome<string>): (st: ChatState)
    ensures st.kind == Success ==> message != [] && chat(message) == Ok(st.message)
  {
    if |message| < 1 then ChatState(Error, InvalidInputMessage)
    else
      match chat(message)
      case Ok(response) => ChatState(Success, response)
      case Fail => ChatState(Error, ChatFailedMessage)
  }

  // ---------------------------------------------------------------------
  // Properties of translateAction

  /** A request is accepted exactly when the text is a non-empty string and
      the dialect one of the catalogue's values; text made only of spaces is
      accepted. */
  lemma ValidIff(text: FormValue, dialect: FormValue)
    ensures Validate(text, dialect).Valid?
        <==> text.Str? && text.s != [] && dialect.Str? && Languages.IsDialect(dialect.s)
    ensures text.Str? && text.s != [] && (forall i :: 0 <= i < |text.s| ==> IsJsSpace(text.s[i]))
            && dialect.Str? && Languages.IsDialect(dialect.s)
        ==> Validate(text, dialect).Valid?
  {
  }

  /** Invalid input gives the 'Invalid input.' record with the field errors,
      and the model is never consulted: any two models give the same record. */
  lemma InvalidInputSkipsModel(text: FormValue, dialect: FormValue,
                               m1: ModelRequest -> Outcome<ModelOutput>, m2: ModelRequest -> Outcome<ModelOutput>)
    requires Validate(text, dialect).Invalid?
    ensures TranslateAction(text, dialect, m1) == TranslateAction(text, dialect, m2)
    ensures TranslateAction(text, dialect, m1)
         == TranslateState(Error, InvalidInputMessage, Some(Validate(text, dialect).errors), "", [], 0.0)
    ensures Validate(text, dialect).errors.text != [] || Validate(text, dialect).errors.dialect != []
  {
  }

  /** The model sees only the rewritten text and the unchanged dialect:
      two models that agree on that one request give the same record. */
  lemma ModelSeesRuleOutput(text: FormValue, dialect: FormValue,
                            m1: ModelRequest -> Outcome<ModelOutput>, m2: ModelRequest -> Outcome<ModelOutput>)
    requires Validate(text, dialect).Valid?
    requires m1(ModelRequestFor(Validate(text, dialect).request)) == m2(ModelRequestFor(Validate(text, dialect).request))
    ensures TranslateAction(text, dialect, m1) == TranslateAction(text, dialect, m2)
  {
  }

  /** On success the record carries the model's translation and confidence
      and exactly the rule engine's trace. */
  lemma SuccessRecord(text: string, dialect: string, model: ModelRequest -> Outcome<ModelOutput>, out: ModelOutput)
    requires text != [] && Languages.IsDialect(dialect)
    requires model(ModelRequest(Rules.Transform(text, dialect).transformedText, dialect)) == Ok(out)
    ensures TranslateAction(Str(text), Str(dialect), model)
         == TranslateState(Success, SuccessMessage, None, out.translated,
                           Rules.Transform(text, dialect).appliedRules, out.confidence)
  {
  }

  /** When the model call fails the record is the fixed error record: no
      text, no trace, confidence 0, and no fallback to the rule output. */
  lemma FailureRecord(text: string, dialect: string, model: ModelRequest -> Outcome<ModelOutput>)
    requires text != [] && Languages.IsDialect(dialect)
    requires model(ModelRequest(Rules.Transform(text, dialect).transformedText, dialect)) == Fail
    ensures TranslateAction(Str(text), Str(dialect), model)
         == TranslateState(Error, TranslationFailedMessage, None, "", [], 0.0)
  {
  }

  /** The record is a success exactly when the input is valid and the model
      call succeeds; every error record is either the validation one or the
      model-failure one. */
  lemma SuccessIff(text: FormValue, dialect: FormValue, model: ModelRequest -> Outcome<ModelOutput>)
    ensures TranslateAction(text, dialect, model).kind == Success
        <==> Validate(text, dialect).Valid? && model(ModelRequestFor(Validate(text, dialect).request)).Ok?
    ensures TranslateAction(text, dialect, model).kind == Error
        ==> TranslateAction(text, dialect, model).message in {InvalidInputMessage, TranslationFailedMessage}
  {
  }

  /** 'standard' is accepted and still sent to the model, with the text as
      typed; its success record has an empty trace. */
  lemma StandardStillSent(text: string, model: ModelRequest -> Outcome<ModelOutput>)
    requires text != []
    ensures Languages.IsDialect(Languages.Standard)
    ensures Validate(Str(text), Str(Languages.Standard)).Valid?
    ensures ModelRequestFor(TranslateRequest(text, Languages.Standard)) == ModelRequest(text, Languages.Standard)
    ensures TranslateAction(Str(text), Str(Languages.Standard), model).appliedRules == []
  {
    assert Languages.Values()[0] == Languages.Standard;
    Rules.TransformTextProperties(text, Languages.Standard);
  }

  // ---------------------------------------------------------------------
  // Properties of chatbotAction

  /** An empty message is rejected without consulting the chatbot; a
      non-empty one gets the chatbot's response, or the fixed error message
      when the call fails. */
  lemma ChatbotCases(message: string, chat: string -> Outcome<string>)
    ensures message == [] ==> ChatbotAction(message, chat) == ChatState(Error, InvalidInputMessage)
    ensures message != [] && chat(message).Ok? ==> ChatbotAction(message, chat) == ChatState(Success, chat(message).value)
    ensures message != [] && chat(message).Fail? ==> ChatbotAction(message, chat) == ChatState(Error, ChatFailedMessage)
  {
  }
}
