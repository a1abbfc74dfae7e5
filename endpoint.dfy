/**
 * The `/plan` handler after its retry loop: the request it receives, the
 * choice between the loop's data, a re-parse of the last answer and the two
 * fallback itineraries, and the response envelope that echoes the request.
 */
module Endpoint {
  import opened Wrappers
  import opened Text
  import opened JsonValue
  import Extraction
  import RetryLoop

  /** The request body (backend/itinerary/schema.py); dates are `YYYY/MM/DD` text. */
  datatype ItineraryRequest = ItineraryRequest(
    currentLocation: string,
    destination: string,
    tripType: string,
    numDays: int,
    people: int,
    startDate: string,
    endDate: string)

  /** `json.dumps(payload.model_dump())`: the request as the agent's first prompt. */
  type Dumps = ItineraryRequest -> string

  const SuccessStatus: string := "success"
  const PartialStatus: string := "partial_success"
  const EmptyError: string := "Empty response from model"
  const ParseError: string := "Failed to parse JSON from model"
  const RawLimit: nat := 500
  const Ellipsis: string := "..."

  /**
   * What the handler does: answer with a status and an itinerary, or raise
   * (reading `.content` of a `final_message` that is still None).
   */
  datatype Reply = Reply(status: string, itinerary: Json) | Crashed

  // ---------------------------------------------------------------------
  // The fallback itineraries
  // ---------------------------------------------------------------------

  const NoItems: Json := JArray([])
  const NoFields: Json := JObject(map[])

  /** The itinerary sent with `partial_success` when the last answer was blank. */
  function EmptyItinerary(): Json {
    JObject(map[
      "error" := JString(EmptyError),
      "flights" := NoItems,
      "hotels" := NoItems,
      "trains" := NoItems,
      "buses" := NoItems,
      "daily_plan" := NoFields])
  }

  /** The start of the answer kept in a failure itinerary: at most 500 characters, then "..." if cut. */
  function RawOutput(content: string): (r: string)
    ensures |r| <= RawLimit + |Ellipsis|
    ensures |content| <= RawLimit ==> r == content
    ensures |content| > RawLimit ==> |r| == RawLimit + |Ellipsis| && r[..RawLimit] == content[..RawLimit] && r[RawLimit..] == Ellipsis
  {
    if |content| > RawLimit then content[..RawLimit] + Ellipsis else content
  }

  /** The itinerary sent when no JSON could be extracted: the error, the raw answer, and empty sections. */
  function FailureItinerary(content: string, exception: string): Json {
    JObject(map[
      "error" := JString(ParseError),
      "raw_output" := JString(RawOutput(content)),
      "exception" := JString(exception),
      "flights" := NoItems,
      "trains" := NoItems,
      "buses" := NoItems,
      "hotels" := NoItems,
      "daily_plan" := NoFields,
      "events" := NoItems,
      "news" := NoItems,
      "sightseeing" := NoItems,
      "famous_food" := NoItems,
      "local_items_to_buy" := NoItems,
      "local_transport" := NoItems,
      "weather_forecast" := NoFields,
      "emergency_contacts" := NoFields,
      "travel_tips" := NoFields,
      "country_culture" := JObject(map["dos" := NoItems, "donts" := NoItems])])
  }

  /** Both fallbacks pass the required-field check the loop applies. */
  lemma FallbacksHaveRequiredFields(content: string, exception: string)
    ensures RetryLoop.AllPresent(EmptyItinerary()) == Some(true)
    ensures RetryLoop.AllPresent(FailureItinerary(content, exception)) == Some(true)
  {
  }

  // ---------------------------------------------------------------------
  // After the loop
  // ---------------------------------------------------------------------

  /** The loop's data is used as it is: `success and itinerary_data`. */
  predicate UseLoopData(st: RetryLoop.LoopState) {
    st.success && st.data.Some? && Truthy(st.data.value)
  }

  /** Lines 79-218: the reply chosen from the state the loop left. */
  function Respond(parse: Extraction.Parser, st: RetryLoop.LoopState): (r: Reply)
    ensures r.Crashed? <==> st.finalMessage.None?
    ensures r.Reply? ==> r.status in {SuccessStatus, PartialStatus}
  {
    if st.finalMessage.None? then Crashed
    else if UseLoopData(st) then Reply(SuccessStatus, st.data.value)
    else
      var content := st.finalMessage.value;
      if IsBlank(content) then Reply(PartialStatus, EmptyItinerary())
      else
        match Extraction.ExtractJson(parse, content)
        case Ok(v) => Reply(SuccessStatus, v)
        case Err(e) => Reply(SuccessStatus, FailureItinerary(content, e))
  }

  /** What the loop guarantees about a success (RetryLoop.RunRecords). */
  predicate SuccessHasFields(st: RetryLoop.LoopState) {
    st.success ==> st.data.Some? && RetryLoop.AllPresent(st.data.value) == Some(true)
  }

  /** After a success the loop's data is sent unchanged, with status "success". */
  lemma SuccessSendsLoopData(parse: Extraction.Parser, st: RetryLoop.LoopState)
    requires st.finalMessage.Some? && st.success && SuccessHasFields(st)
    ensures Respond(parse, st) == Reply(SuccessStatus, st.data.value)
  {
    RetryLoop.AllPresentIsTruthy(st.data.value);
  }

  /** "partial_success" is sent exactly when the loop failed and its last answer was blank. */
  lemma PartialOnlyForBlank(parse: Extraction.Parser, st: RetryLoop.LoopState)
    requires SuccessHasFields(st)
    ensures var r := Respond(parse, st);
      r.Reply? && r.status == PartialStatus <==> !st.success && st.finalMessage.Some? && IsBlank(st.finalMessage.value)
  {
    if st.success {
      RetryLoop.AllPresentIsTruthy(st.data.value);
    }
  }

  /**
   * Every itinerary sent holds the required fields, except one re-parsed
   * from a failed loop's last answer, which is sent as it was extracted.
   */
  lemma ItineraryHasFieldsUnlessReparsed(parse: Extraction.Parser, st: RetryLoop.LoopState)
    requires SuccessHasFields(st)
    ensures var r := Respond(parse, st);
      r.Reply? ==>
        || RetryLoop.AllPresent(r.itinerary) == Some(true)
        || (!st.success && Extraction.ExtractJson(parse, st.finalMessage.value) == Ok(r.itinerary))
  {
    if st.finalMessage.Some? && !UseLoopData(st) {
      FallbacksHaveRequiredFields(st.finalMessage.value, "");
      if Extraction.ExtractJson(parse, st.finalMessage.value).Err? {
        FallbacksHaveRequiredFields(st.finalMessage.value, Extraction.ExtractJson(parse, st.finalMessage.value).error);
      }
    }
  }

  /** When extraction fails, the failure itinerary is sent with its message, still as "success". */
  lemma FailureSendsError(parse: Extraction.Parser, st: RetryLoop.LoopState)
    requires SuccessHasFields(st) && !st.success && st.finalMessage.Some? && !IsBlank(st.finalMessage.value)
    requires Extraction.ExtractJson(parse, st.finalMessage.value).Err?
    ensures Respond(parse, st)
         == Reply(SuccessStatus, FailureItinerary(st.finalMessage.value, Extraction.ExtractJson(parse, st.finalMessage.value).error))
  {
  }

  /** The failure itinerary records the error, the exception's message and the start of the answer. */
  lemma FailureItineraryRecords(content: string, exception: string)
    ensures var f := FailureItinerary(content, exception);
      && f.JObject?
      && f.fields["error"] == JString(ParseError)
      && f.fields["exception"] == JString(exception)
      && f.fields["raw_output"] == JString(RawOutput(content))
      && f.fields["country_culture"] == JObject(map["dos" := NoItems, "donts" := NoItems])
  {
  }

  // ---------------------------------------------------------------------
  // The response envelope
  // ---------------------------------------------------------------------

  /** Lines 220-235 (and 98-113): the response body around a reply's status and itinerary. */
  function Body(payload: ItineraryRequest, status: string, itinerary: Json): Json {
    JObject(map[
      "status" := JString(status),
      "data" := JObject(map[
        "traveler" := JObject(map["name" := JString(""), "count" := JInt(payload.people)]),
        "trip" := JObject(map[
          "startDate" := JString(payload.startDate),
          "endDate" := JString(payload.endDate),
          "origin" := JString(payload.currentLocation),
          "destination" := JString(payload.destination),
          "itinerary" := itinerary])])])
  }

  /** What a client reads back from a response body: its status, the echoed request and the itinerary. */
  datatype Echo = Echo(
    status: string,
    travelerName: string,
    count: int,
    startDate: string,
    endDate: string,
    origin: string,
    destination: string,
    itinerary: Json)

  /** The value under `key` when `v` is an object holding it. */
  function Field(v: Json, key: string): (r: Option<Json>)
    ensures r.Some? <==> v.JObject? && key in v.fields
    ensures r.Some? ==> r.value == v.fields[key]
  {
    if v.JObject? && key in v.fields then Some(v.fields[key]) else None
  }

  /** The text under `key`, when it is a string. */
  function TextField(v: Json, key: string): (r: Option<string>)
    ensures r.Some? <==> Field(v, key).Some? && Field(v, key).value.JString?
  {
    match Field(v, key)
    case Some(JString(s)) => Some(s)
    case _ => None
  }

  /** Reads the envelope's fields back; None when one is missing or has another type. */
  function ReadBody(b: Json): (r: Option<Echo>)
    ensures r.Some? ==> Field(b, "data").Some? && Field(Field(b, "data").value, "trip").Some?
    ensures r.Some? ==> Field(Field(Field(b, "data").value, "trip").value, "itinerary") == Some(r.value.itinerary)
  {
    var status := TextField(b, "status");
    var data := Field(b, "data");
    if status.None? || data.None? then None
    else
      var traveler := Field(data.value, "traveler");
      var trip := Field(data.value, "trip");
      if traveler.None? || trip.None? then None
      else
        var name := TextField(traveler.value, "name");
        var count := Field(traveler.value, "count");
        var start := TextField(trip.value, "startDate");
        var end := TextField(trip.value, "endDate");
        var origin := TextField(trip.value, "origin");
        var destination := TextField(trip.value, "destination");
        var itinerary := Field(trip.value, "itinerary");
        if name.None? || count.None? || !count.value.JInt? || start.None? || end.None?
           || origin.None? || destination.None? || itinerary.None? then None
        else
          Some(Echo(status.value, name.value, count.value.i, start.value, end.value,
                    origin.value, destination.value, itinerary.value))
  }

  /**
   * The body reads back as the status, an empty traveller name, the request's
   * count, dates and places, and the itinerary, so a client finds the
   * itinerary at `data.trip.itinerary`.
   */
  lemma BodyRoundTrip(payload: ItineraryRequest, status: string, itinerary: Json)
    ensures ReadBody(Body(payload, status, itinerary))
         == Some(Echo(status, "", payload.people, payload.startDate, payload.endDate,
                      payload.currentLocation, payload.destination, itinerary))
  {
    var b := Body(payload, status, itinerary);
    var data := b.fields["data"];
    assert Field(b, "data") == Some(data);
    assert Field(data, "trip") == Some(data.fields["trip"]);
    assert Field(data, "traveler") == Some(data.fields["traveler"]);
  }

  /** The response the handler sends: the envelope around its reply, or None when it raises. */
  function Response(parse: Extraction.Parser, st: RetryLoop.LoopState, payload: ItineraryRequest): (r: Option<Json>)
    ensures r.None? <==> st.finalMessage.None?
  {
    match Respond(parse, st)
    case Crashed => None
    case Reply(status, itinerary) => Some(Body(payload, status, itinerary))
  }

  // ---------------------------------------------------------------------
  // The handler
  // ---------------------------------------------------------------------

  /**
   * `generate_itinerary`: run the retry loop on the serialised request,
   * choose the reply and wrap it in the response body. It raises (None)
   * exactly when every attempt raised; otherwise the body echoes the request
   * around the chosen status and itinerary.
   */
  method GenerateItinerary(agent: RetryLoop.Agent, parse: Extraction.Parser, dumps: Dumps, payload: ItineraryRequest)
    returns (response: Option<Json>)
    ensures response == Response(parse, RetryLoop.Run(agent, parse, dumps(payload)), payload)
    ensures var ps := RetryLoop.Invocations(RetryLoop.Run(agent, parse, dumps(payload)).events);
      response.None? <==> forall k :: 0 <= k < |ps| ==> agent(k + 1, ps[k]).Raised?
    ensures var reply := Respond(parse, RetryLoop.Run(agent, parse, dumps(payload)));
      response.Some? ==>
        && reply.Reply?
        && ReadBody(response.value)
           == Some(Echo(reply.status, "", payload.people, payload.startDate, payload.endDate,
                        payload.currentLocation, payload.destination, reply.itinerary))
  {
    var request := dumps(payload);
    var st := RetryLoop.RetryAttempts(agent, parse, request);
    var reply := Respond(parse, st);
    RetryLoop.RunRecords(agent, parse, request);
    RetryLoop.LastTextMeaning(agent, RetryLoop.Invocations(st.events));
    if reply.Crashed? {
      response := None;
    } else {
      response := Some(Body(payload, reply.status, reply.itinerary));
      BodyRoundTrip(payload, reply.status, reply.itinerary);
    }
  }
}
