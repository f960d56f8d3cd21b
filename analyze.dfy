/** The two endpoints of the service: POST /analyze, from the request body to
    the JSON response and its HTTP status, and GET /health. The model handle,
    image decoding, the model call and json.loads are collaborators passed in. */
module Analyze {
  import opened Outcomes
  import opened PyStrings
  import opened PyJson
  import opened Extraction

  // ---------------------------------------------------------------------------
  // Responses.

  /** The "data" member of a response: left out, JSON null, or a value. */
  datatype Data = Omitted | Null | Payload(value: JsonValue)

  /** The body { success, error?, data? } of a response and its HTTP status. */
  datatype Response = Response(status: nat, success: bool, error: Option<string>, data: Data)

  const ModelUnavailableMessage: string :=
    "AI model failed to initialize. Please ensure GEMINI_API_KEY is set correctly."
  const NoImageMessage: string := "No image data provided."
  const ParseFailurePrefix: string := "Could not fully parse AI response. Reason: "
  const UnexpectedPrefix: string := "An unexpected error occurred during analysis: "
  /** The ValueError message of the required-key check. */
  const MissingKeysMessage: string := "Parsed JSON is missing required top-level keys."

  const ModelUnavailableResponse: Response := Response(500, false, Some(ModelUnavailableMessage), Omitted)
  const NoImageResponse: Response := Response(400, false, Some(NoImageMessage), Omitted)

  /** The generic handler for any other exception: 500 with a null data member. */
  function UnexpectedResponse(e: PyException): (r: Response)
    ensures r.status == 500 && !r.success && r.data == Null
    ensures r.error.Some? && StartsWith(r.error.value, UnexpectedPrefix)
    ensures r.error.Some? && r.error.value[|UnexpectedPrefix|..] == ExceptionText(e)
  {
    var message := UnexpectedPrefix + ExceptionText(e);
    assert message[..|UnexpectedPrefix|] == UnexpectedPrefix;
    Response(500, false, Some(message), Null)
  }

  /** The top-level keys whose presence makes a parsed reply acceptable. */
  const RequiredKeys: seq<string> := ["product_identification", "water_footprint", "overall_severity"]

  // ---------------------------------------------------------------------------
  // The fallback record.

  const FallbackKeys: set<string> := {
    "product_identification", "overall_severity", "water_footprint", "definitions",
    "environmental_impact", "production_insights", "comparisons", "recommendations",
    "interesting_facts", "water_breakdown_chart", "regional_comparison_chart",
    "impact_metrics", "raw_analysis_text_fallback"
  }

  const NA: JsonValue := JString("N/A")
  const Unknown: JsonValue := JString("Unknown")

  /** The placeholder analysis sent back when the reply cannot be used: the
      schema's top-level shape with sentinel values, no chart data, and the
      reply itself for diagnosis. */
  function FallbackRecord(responseText: string): (r: JsonValue)
    ensures r.JObject? && r.fields.Keys == FallbackKeys
  {
    JObject(map[
      "product_identification" := JObject(map[
        "detected_product" := JString("Unknown Product"), "confidence" := NA,
        "category" := NA, "scientific_name" := NA]),
      "overall_severity" := Unknown,
      "water_footprint" := JObject(map[
        "total_footprint" := NA, "green_water" := NA, "blue_water" := NA,
        "grey_water" := NA, "global_average" := NA, "regional_variations" := JObject(map[])]),
      "definitions" := JObject(map[]),
      "environmental_impact" := JObject(map[
        "severity_score" := NA, "impact_category" := Unknown, "sustainability_rating" := NA,
        "carbon_footprint" := NA, "land_use" := NA]),
      "production_insights" := JObject(map[
        "growing_season" := NA, "water_efficiency" := NA, "irrigation_dependency" := Unknown,
        "climate_sensitivity" := Unknown, "seasonal_availability" := JArray([])]),
      "comparisons" := JObject(map["vs_similar_products" := JArray([]), "vs_alternatives" := JArray([])]),
      "recommendations" := JObject(map[
        "consumer_tips" := JArray([]), "sustainable_practices" := JArray([]),
        "water_conservation" := JArray([]), "seasonal_buying" := NA]),
      "interesting_facts" := JArray([JString("Could not retrieve detailed facts due to analysis error.")]),
      "water_breakdown_chart" := JNull,
      "regional_comparison_chart" := JNull,
      "impact_metrics" := JObject(map[
        "water_stress_contribution" := NA, "biodiversity_impact" := Unknown,
        "soil_health_impact" := Unknown, "economic_water_cost" := NA]),
      "raw_analysis_text_fallback" := JString(responseText)
    ])
  }

  /** The fallback carries the raw reply verbatim, "Unknown" as the overall
      severity, and no chart data. */
  lemma FallbackSentinels(t: string)
    ensures FallbackRecord(t).fields["raw_analysis_text_fallback"] == JString(t)
    ensures FallbackRecord(t).fields["overall_severity"] == Unknown
    ensures FallbackRecord(t).fields["water_breakdown_chart"] == JNull
    ensures FallbackRecord(t).fields["regional_comparison_chart"] == JNull
  {
  }

  /** The fallback keeps the reply: two fallbacks are equal exactly when the
      replies they were built from are. */
  lemma FallbackKeepsReply(t1: string, t2: string)
    ensures FallbackRecord(t1) == FallbackRecord(t2) <==> t1 == t2
  {
    FallbackSentinels(t1);
    FallbackSentinels(t2);
  }

  /** The fallback has the schema's top-level shape: it would itself pass the
      required-key check. */
  lemma FallbackHasRequiredKeys(t: string)
    ensures AllIn(RequiredKeys, FallbackRecord(t)) == Ok(true)
  {
    var r := FallbackRecord(t);
    assert forall i :: 0 <= i < |RequiredKeys| ==> RequiredKeys[i] in FallbackKeys;
    assert forall i :: 0 <= i < |RequiredKeys| ==> Contains(r, RequiredKeys[i]) == Ok(true);
  }

  // ---------------------------------------------------------------------------
  // The image field.

  const DataUrlPrefix: string := "data:image"

  /** The base64 payload of the image field: split(',')[1] when it starts
      with "data:image", an IndexError (None) when that has no comma, and
      the string itself otherwise. */
  function ImagePayload(image: string): (r: Option<string>)
    ensures !StartsWith(image, DataUrlPrefix) ==> r == Some(image)
    ensures StartsWith(image, DataUrlPrefix) ==> (r.None? <==> ',' !in image)
    ensures StartsWith(image, DataUrlPrefix) && r.Some? ==> ',' !in r.value
  {
    if StartsWith(image, DataUrlPrefix) then
      var parts := Split(image, ',');
      SplitPiecesAvoidSep(image, ',');
      SplitManyIffSep(image, ',');
      if |parts| > 1 then Some(parts[1]) else None
    else Some(image)
  }

  /** With the first comma at i and the next comma (or the end) at j, the
      payload is what lies strictly between them. */
  lemma ImagePayloadBetweenCommas(image: string, i: nat, j: nat)
    requires StartsWith(image, DataUrlPrefix)
    requires i < j <= |image| && image[i] == ',' && ',' !in image[..i]
    requires ',' !in image[i + 1..j] && (j == |image| || image[j] == ',')
    ensures ImagePayload(image) == Some(image[i + 1..j])
  {
    SplitAtFirst(image, ',', i);
    var rest := image[i + 1..];
    if j == |image| {
      assert rest == image[i + 1..j];
      SplitNoSep(rest, ',');
    } else {
      assert rest[..j - i - 1] == image[i + 1..j];
      SplitAtFirst(rest, ',', j - i - 1);
    }
  }

  /** A "data:image" string without a comma has no payload. */
  lemma ImagePayloadNoComma(image: string)
    requires StartsWith(image, DataUrlPrefix) && ',' !in image
    ensures ImagePayload(image).None?
  {
    SplitNoSep(image, ',');
  }

  /** Stripping a data-URL header gives what sending the bare payload gives:
      the payload, provided neither holds a comma (base64 never does). */
  lemma ImagePayloadHeaderTransparent(header: string, payload: string)
    requires StartsWith(header, DataUrlPrefix) && ',' !in header
    requires ',' !in payload && !StartsWith(payload, DataUrlPrefix)
    ensures ImagePayload(header + "," + payload) == ImagePayload(payload) == Some(payload)
  {
    var image := header + "," + payload;
    assert image[0..|DataUrlPrefix|] == header[0..|DataUrlPrefix|];
    assert StartsWith(image, DataUrlPrefix);
    assert image[..|header|] == header;
    assert image[|header|] == ',';
    assert image[|header| + 1..|image|] == payload;
    ImagePayloadBetweenCommas(image, |header|, |image|);
  }

  // ---------------------------------------------------------------------------
  // Reconciling the model's reply.

  /** How the inner try block ends: the parsed reply accepted, a ValueError
      (a JSONDecodeError among them) caught with its text, or another
      exception escaping to the generic handler. */
  datatype Reconciled = Accepted(value: JsonValue) | Rejected(reason: string) | Escaped(exception: PyException)

  /** Extract the candidate, parse it with loadJson (json.loads), check the
      required keys. The reply is accepted exactly when a candidate is found,
      parses, and holds all three keys, and what is accepted is the parsed
      value unmodified. An exception escapes exactly when the parser fails
      with something other than a ValueError or the key check raises
      TypeError on a parsed None, bool or number. Every other failure is
      rejected with the text of its own ValueError: the brace-path message
      when no candidate is found, the parser's message when parsing fails,
      the missing-keys message when a key is absent. */
  function Reconcile(text: string, loadJson: string -> Result<JsonValue, LoadFailure>): (r: Reconciled)
    ensures r.Accepted? <==>
              && ExtractCandidate(text).Ok?
              && loadJson(ExtractCandidate(text).value).Ok?
              && forall i :: 0 <= i < |RequiredKeys| ==>
                   Contains(loadJson(ExtractCandidate(text).value).value, RequiredKeys[i]) == Ok(true)
    ensures r.Accepted? ==> r.value == loadJson(ExtractCandidate(text).value).value
    ensures r.Escaped? <==>
              && ExtractCandidate(text).Ok?
              && var parsed := loadJson(ExtractCandidate(text).value);
                 (parsed.Err? && parsed.error.OtherFailure?) || (parsed.Ok? && !IsContainer(parsed.value))
    ensures r.Escaped? ==>
              var parsed := loadJson(ExtractCandidate(text).value);
              r.exception == if parsed.Ok? then NotIterable(TypeName(parsed.value)) else Raised(parsed.error.message)
    ensures ExtractCandidate(text).Err? ==> r == Rejected(NoJsonObjectMessage)
    ensures ExtractCandidate(text).Ok? && loadJson(ExtractCandidate(text).value).Err?
            && loadJson(ExtractCandidate(text).value).error.ValueError? ==>
              r == Rejected(loadJson(ExtractCandidate(text).value).error.message)
    ensures ExtractCandidate(text).Ok? && loadJson(ExtractCandidate(text).value).Ok?
            && AllIn(RequiredKeys, loadJson(ExtractCandidate(text).value).value) == Ok(false) ==>
              r == Rejected(MissingKeysMessage)
  {
    match ExtractCandidate(text)
    case Err(msg) => Rejected(msg)
    case Ok(candidate) =>
      match loadJson(candidate)
      case Err(ValueError(msg)) => Rejected(msg)
      case Err(OtherFailure(msg)) => Escaped(Raised(msg))
      case Ok(v) =>
        match AllIn(RequiredKeys, v)
        case Err(e) => Escaped(e)
        case Ok(false) => Rejected(MissingKeysMessage)
        case Ok(true) => Accepted(v)
  }

  /** For a parsed dict the decision is key presence alone: accepted when all
      three keys are there, the missing-keys ValueError otherwise. */
  lemma ReconcileObject(text: string, loadJson: string -> Result<JsonValue, LoadFailure>, fields: map<string, JsonValue>)
    requires ExtractCandidate(text).Ok? && loadJson(ExtractCandidate(text).value) == Ok(JObject(fields))
    ensures Reconcile(text, loadJson) ==
              if "product_identification" in fields && "water_footprint" in fields && "overall_severity" in fields
              then Accepted(JObject(fields))
              else Rejected(MissingKeysMessage)
  {
    var v := JObject(fields);
    assert Contains(v, RequiredKeys[0]) == Ok("product_identification" in fields);
    assert Contains(v, RequiredKeys[1]) == Ok("water_footprint" in fields);
    assert Contains(v, RequiredKeys[2]) == Ok("overall_severity" in fields);
  }

  /** The check is shallow: a parsed list holding the three key names as
      strings passes it and is accepted as the analysis. */
  lemma ReconcileAcceptsKeyNameList(text: string, loadJson: string -> Result<JsonValue, LoadFailure>)
    requires ExtractCandidate(text).Ok?
    requires loadJson(ExtractCandidate(text).value) == Ok(JArray([JString("product_identification"), JString("water_footprint"), JString("overall_severity")]))
    ensures Reconcile(text, loadJson).Accepted?
  {
    var v := loadJson(ExtractCandidate(text).value).value;
    assert v.items[0] == JString(RequiredKeys[0]);
    assert v.items[1] == JString(RequiredKeys[1]);
    assert v.items[2] == JString(RequiredKeys[2]);
  }

  // ---------------------------------------------------------------------------
  // The endpoints.

  /** The collaborators of /analyze: base64 decoding with image loading and
      RGB conversion, the model call (with its fixed prompt), and json.loads.
      The first two fail with the text of the exception they raise; json.loads
      also says whether that exception is a ValueError. */
  datatype Services<-M, !I> = Services(
    prepareImage: string -> Result<I, string>,
    generate: (M, I) -> Result<string, string>,
    loadJson: string -> Result<JsonValue, LoadFailure>)

  /** data.get('image'): the member's value, or None when it is absent. */
  function ImageField(fields: map<string, JsonValue>): (r: JsonValue)
    ensures "image" in fields ==> r == fields["image"]
    ensures "image" !in fields ==> r == JNull && !Truthy(r)
  {
    if "image" in fields then fields["image"] else JNull
  }

  /** POST /analyze. model is the process-wide model handle (None when it
      failed to load); body is request.json, or the text of the error reading
      it raises. */
  function AnalyzeWaterFootprint<M, I>(model: Option<M>, body: Result<JsonValue, string>, services: Services<M, I>): (r: Response)
    ensures r.status == 200 || r.status == 400 || r.status == 500
    ensures r.success <==> r.status == 200
    ensures r.success <==> r.error.None?
    ensures r.status == 400 ==> r == NoImageResponse
    ensures model.None? ==> r == ModelUnavailableResponse
  {
    if model.None? then ModelUnavailableResponse
    else
      match body
      case Err(msg) => UnexpectedResponse(Raised(msg))
      case Ok(data) =>
        if !data.JObject? then UnexpectedResponse(NoAttribute(TypeName(data), "get"))
        else
          var image := ImageField(data.fields);
          if !Truthy(image) then NoImageResponse
          else if !image.JString? then UnexpectedResponse(NoAttribute(TypeName(image), "startswith"))
          else
            match ImagePayload(image.s)
            case None => UnexpectedResponse(IndexOutOfRange)
            case Some(payload) =>
              match services.prepareImage(payload)
              case Err(msg) => UnexpectedResponse(Raised(msg))
              case Ok(picture) =>
                match services.generate(model.value, picture)
                case Err(msg) => UnexpectedResponse(Raised(msg))
                case Ok(text) =>
                  match Reconcile(text, services.loadJson)
                  case Accepted(v) => Response(200, true, None, Payload(v))
                  case Rejected(reason) =>
                    Response(500, false, Some(ParseFailurePrefix + reason), Payload(FallbackRecord(text)))
                  case Escaped(e) => UnexpectedResponse(e)
  }

  /** GET /health. */
  function HealthStatus<M>(model: Option<M>): (status: string)
    ensures status == "healthy" || status == "warning (model not loaded)"
    ensures status == "healthy" <==> model.Some?
  {
    if model.Some? then "healthy" else "warning (model not loaded)"
  }

  /** The two endpoints agree: the health check reports healthy exactly when
      /analyze does not answer with the model-unavailable error. */
  lemma HealthMatchesAnalyze<M, I>(model: Option<M>, body: Result<JsonValue, string>, services: Services<M, I>)
    ensures HealthStatus(model) == "healthy" <==> AnalyzeWaterFootprint(model, body, services) != ModelUnavailableResponse
  {
  }

  /** With the model loaded, the 400 answer comes exactly from a JSON object
      whose image member is missing or false-like (None, "", 0, false, empty). */
  lemma AnalyzeBadRequestIff<M, I>(model: Option<M>, body: Result<JsonValue, string>, services: Services<M, I>)
    requires model.Some?
    ensures AnalyzeWaterFootprint(model, body, services).status == 400 <==>
              body.Ok? && body.value.JObject? && !Truthy(ImageField(body.value.fields))
  {
  }

  /** The parse-failure 500: the fixed prefix with a reason, and the
      fallback record of some reply. */
  ghost predicate IsFallbackAnswer(r: Response) {
    exists text, reason :: r == Response(500, false, Some(ParseFailurePrefix + reason), Payload(FallbackRecord(text)))
  }

  /** The generic 500 for some exception. */
  ghost predicate IsGenericAnswer(r: Response) {
    exists e :: r == UnexpectedResponse(e)
  }

  /** The closed set of answers: the model-unavailable answer, the no-image
      answer, 200 with a value, the parse-failure 500 carrying the fallback
      record of a reply, or the generic 500 for some exception. */
  ghost predicate IsClosedAnswer(r: Response) {
    || r == ModelUnavailableResponse
    || r == NoImageResponse
    || (r.status == 200 && r.success && r.error.None? && r.data.Payload?)
    || IsFallbackAnswer(r)
    || IsGenericAnswer(r)
  }

  /** Every answer of /analyze lies in that closed set. */
  lemma AnalyzeAnswerShapes<M, I>(model: Option<M>, body: Result<JsonValue, string>, services: Services<M, I>)
    ensures IsClosedAnswer(AnalyzeWaterFootprint(model, body, services))
  {
    if && model.Some? && body.Ok? && body.value.JObject?
       && Truthy(ImageField(body.value.fields)) && ImageField(body.value.fields).JString? {
      var fields := body.value.fields;
      assert body == Ok(JObject(fields));
      AnalyzeImageStageShapes(model, fields, services);
    } else {
      AnalyzeEarlyShapes(model, body, services);
    }
  }

  /** Before an image string is in hand, the answer is the model-unavailable
      answer, the no-image answer, or the generic 500. */
  lemma AnalyzeEarlyShapes<M, I>(model: Option<M>, body: Result<JsonValue, string>, services: Services<M, I>)
    requires !(&& model.Some? && body.Ok? && body.value.JObject?
               && Truthy(ImageField(body.value.fields)) && ImageField(body.value.fields).JString?)
    ensures var r := AnalyzeWaterFootprint(model, body, services);
            r == ModelUnavailableResponse || r == NoImageResponse || IsGenericAnswer(r)
  {
    if model.Some? {
      AnalyzeEarlyFailuresAreGeneric(model, body, services);
      if body.Err? {
        assert IsGenericAnswer(UnexpectedResponse(Raised(body.error)));
      } else if !body.value.JObject? {
        assert IsGenericAnswer(UnexpectedResponse(NoAttribute(TypeName(body.value), "get")));
      } else if Truthy(ImageField(body.value.fields)) {
        assert IsGenericAnswer(UnexpectedResponse(NoAttribute(TypeName(ImageField(body.value.fields)), "startswith")));
      }
    }
  }

  /** From a usable image string on, the answer is the generic 500, 200 with
      a value, or the parse-failure 500. */
  lemma AnalyzeImageStageShapes<M, I>(model: Option<M>, fields: map<string, JsonValue>, services: Services<M, I>)
    requires model.Some? && ImageField(fields).JString? && ImageField(fields).s != ""
    ensures var r := AnalyzeWaterFootprint(model, Ok(JObject(fields)), services);
            || (r.status == 200 && r.success && r.error.None? && r.data.Payload?)
            || IsFallbackAnswer(r)
            || IsGenericAnswer(r)
  {
    var body: Result<JsonValue, string> := Ok(JObject(fields));
    var image := ImageField(fields).s;
    match ImagePayload(image)
    case None =>
      AnalyzeDataUrlWithoutComma(model, fields, services);
      assert IsGenericAnswer(UnexpectedResponse(IndexOutOfRange));
    case Some(payload) =>
      match services.prepareImage(payload)
      case Err(msg) =>
        AnalyzeServiceFailureIsGeneric(model, fields, services, payload, msg);
        assert IsGenericAnswer(UnexpectedResponse(Raised(msg)));
      case Ok(picture) =>
        match services.generate(model.value, picture)
        case Err(msg) =>
          AnalyzeServiceFailureIsGeneric(model, fields, services, payload, msg);
          assert IsGenericAnswer(UnexpectedResponse(Raised(msg)));
        case Ok(text) =>
          assert ReachesModel(model, body, services, text);
          AnalyzeReplyStageShapes(model, body, services, text);
  }

  /** Once the reply is in, the answer is 200 with a value, the
      parse-failure 500, or the generic 500. */
  lemma AnalyzeReplyStageShapes<M, I>(model: Option<M>, body: Result<JsonValue, string>, services: Services<M, I>, text: string)
    requires ReachesModel(model, body, services, text)
    ensures var r := AnalyzeWaterFootprint(model, body, services);
            || (r.status == 200 && r.success && r.error.None? && r.data.Payload?)
            || IsFallbackAnswer(r)
            || IsGenericAnswer(r)
  {
    AnalyzeOutcomeOfReply(model, body, services, text);
    match Reconcile(text, services.loadJson)
    case Accepted(v) =>
    case Rejected(reason) =>
      assert IsFallbackAnswer(Response(500, false, Some(ParseFailurePrefix + reason), Payload(FallbackRecord(text))));
    case Escaped(e) =>
      assert IsGenericAnswer(UnexpectedResponse(e));
  }

  /** Every failure before the reply is in ends in the generic 500 answer
      with null data: an unreadable body, a body that is not an object, a
      truthy image member that is not a string, a failing image decode, or a
      failing model call. */
  lemma AnalyzeEarlyFailuresAreGeneric<M, I>(model: Option<M>, body: Result<JsonValue, string>, services: Services<M, I>)
    requires model.Some?
    ensures body.Err? ==> AnalyzeWaterFootprint(model, body, services) == UnexpectedResponse(Raised(body.error))
    ensures body.Ok? && !body.value.JObject? ==>
              AnalyzeWaterFootprint(model, body, services) == UnexpectedResponse(NoAttribute(TypeName(body.value), "get"))
    ensures body.Ok? && body.value.JObject? && Truthy(ImageField(body.value.fields)) && !ImageField(body.value.fields).JString? ==>
              var image := ImageField(body.value.fields);
              AnalyzeWaterFootprint(model, body, services) == UnexpectedResponse(NoAttribute(TypeName(image), "startswith"))
  {
  }

  /** A failing image decode, or a failing model call, gives the generic 500
      answer with that exception's text and null data. */
  lemma AnalyzeServiceFailureIsGeneric<M, I>(model: Option<M>, fields: map<string, JsonValue>, services: Services<M, I>,
                                             payload: string, message: string)
    requires model.Some? && ImageField(fields).JString? && ImageField(fields).s != ""
    requires ImagePayload(ImageField(fields).s) == Some(payload)
    requires || services.prepareImage(payload) == Err(message)
             || (services.prepareImage(payload).Ok? && services.generate(model.value, services.prepareImage(payload).value) == Err(message))
    ensures AnalyzeWaterFootprint(model, Ok(JObject(fields)), services) == UnexpectedResponse(Raised(message))
  {
  }

  /** The reply reached the reconciler: the request was answered by exactly
      what reconciling the reply decided. */
  ghost predicate ReachesModel<M, I>(model: Option<M>, body: Result<JsonValue, string>, services: Services<M, I>, text: string) {
    && model.Some?
    && body.Ok? && body.value.JObject?
    && ImageField(body.value.fields).JString?
    && ImageField(body.value.fields).s != ""
    && ImagePayload(ImageField(body.value.fields).s).Some?
    && services.prepareImage(ImagePayload(ImageField(body.value.fields).s).value).Ok?
    && services.generate(model.value, services.prepareImage(ImagePayload(ImageField(body.value.fields).s).value).value) == Ok(text)
  }

  /** Success is 200 with the parsed reply as data, verbatim; every
      extraction, parse or key failure is 500 with the parse-failure message
      and the fallback record built from the raw reply. */
  lemma AnalyzeOutcomeOfReply<M, I>(model: Option<M>, body: Result<JsonValue, string>, services: Services<M, I>, text: string)
    requires ReachesModel(model, body, services, text)
    ensures var r := AnalyzeWaterFootprint(model, body, services);
            match Reconcile(text, services.loadJson)
            case Accepted(v) => r == Response(200, true, None, Payload(v))
            case Rejected(reason) =>
              && r.status == 500 && !r.success
              && r.error == Some(ParseFailurePrefix + reason)
              && r.data == Payload(FallbackRecord(text))
            case Escaped(e) => r == UnexpectedResponse(e)
  {
  }

  /** A data member that is a value other than the parsed reply is always the
      fallback record of the reply, sent with status 500 and the
      parse-failure message. */
  lemma AnalyzeFallbackOnlyOnParseFailure<M, I>(model: Option<M>, body: Result<JsonValue, string>, services: Services<M, I>)
    ensures var r := AnalyzeWaterFootprint(model, body, services);
            r.data.Payload? && !r.success ==>
              && r.status == 500
              && (exists text :: ReachesModel(model, body, services, text) && r.data.value == FallbackRecord(text))
              && r.error.Some? && StartsWith(r.error.value, ParseFailurePrefix)
  {
    var r := AnalyzeWaterFootprint(model, body, services);
    if r.data.Payload? && !r.success {
      var data := body.value;
      var image := ImageField(data.fields);
      var picture := services.prepareImage(ImagePayload(image.s).value).value;
      var text := services.generate(model.value, picture).value;
      assert ReachesModel(model, body, services, text);
      var reason := Reconcile(text, services.loadJson).reason;
      assert r.error.value[..|ParseFailurePrefix|] == ParseFailurePrefix;
    }
  }

  /** A "data:image" field without a comma ends in the generic 500 answer
      with the IndexError text and a null data member. */
  lemma AnalyzeDataUrlWithoutComma<M, I>(model: Option<M>, fields: map<string, JsonValue>, services: Services<M, I>)
    requires model.Some? && ImageField(fields).JString?
    requires StartsWith(ImageField(fields).s, DataUrlPrefix) && ',' !in ImageField(fields).s
    ensures AnalyzeWaterFootprint(model, Ok(JObject(fields)), services) ==
              Response(500, false, Some(UnexpectedPrefix + "list index out of range"), Null)
  {
    ImagePayloadNoComma(ImageField(fields).s);
  }

  /** End to end: a reply that wraps a JSON object holding the three required
      keys in a ```json fence is answered with 200 and that object. */
  lemma AnalyzeFencedObjectSucceeds<M, I>(model: Option<M>, body: Result<JsonValue, string>, services: Services<M, I>,
                                          text: string, p: nat, a: nat, b: nat, q: nat, fields: map<string, JsonValue>)
    requires ReachesModel(model, body, services, text)
    requires OccursAt(text, FenceOpen, p) && OccursAt(text, FenceClose, q)
    requires forall k :: 0 <= k < p ==> !OccursAt(text, FenceOpen, k)
    requires p + |FenceOpen| <= a <= b <= q
    requires forall k :: p + |FenceOpen| <= k < q ==> !OccursAt(text, FenceClose, k)
    requires AllSpace(text[p + |FenceOpen|..a]) && AllSpace(text[b..q])
    requires IsStripped(text[a..b])
    requires services.loadJson(text[a..b]) == Ok(JObject(fields))
    requires "product_identification" in fields && "water_footprint" in fields && "overall_severity" in fields
    ensures AnalyzeWaterFootprint(model, body, services) == Response(200, true, None, Payload(JObject(fields)))
  {
    FencedBodyExtracted(text, p, a, b, q);
    ReconcileObject(text, services.loadJson, fields);
    AnalyzeOutcomeOfReply(model, body, services, text);
  }

  /** End to end: a reply whose JSON object lacks a required key, although
      it parses, is answered with 500, the missing-keys reason and the
      fallback record carrying the reply. */
  lemma AnalyzeMissingKeyFallsBack<M, I>(model: Option<M>, body: Result<JsonValue, string>, services: Services<M, I>,
                                         text: string, fields: map<string, JsonValue>)
    requires ReachesModel(model, body, services, text)
    requires ExtractCandidate(text).Ok? && services.loadJson(ExtractCandidate(text).value) == Ok(JObject(fields))
    requires "overall_severity" !in fields
    ensures AnalyzeWaterFootprint(model, body, services) ==
              Response(500, false, Some(ParseFailurePrefix + MissingKeysMessage), Payload(FallbackRecord(text)))
  {
    ReconcileObject(text, services.loadJson, fields);
    AnalyzeOutcomeOfReply(model, body, services, text);
  }

  /** End to end: when json.loads fails with an exception that is not a
      ValueError (a RecursionError on a deeply nested candidate), no
      fallback is sent; the generic 500 answer carries that exception's
      text. */
  lemma AnalyzeParserCrashEscapes<M, I>(model: Option<M>, body: Result<JsonValue, string>, services: Services<M, I>,
                                        text: string, candidate: string, message: string)
    requires ReachesModel(model, body, services, text)
    requires ExtractCandidate(text) == Ok(candidate)
    requires services.loadJson(candidate) == Err(OtherFailure(message))
    ensures AnalyzeWaterFootprint(model, body, services) == UnexpectedResponse(Raised(message))
    ensures AnalyzeWaterFootprint(model, body, services).data == Null
  {
    AnalyzeOutcomeOfReply(model, body, services, text);
  }
}
