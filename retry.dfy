/**
 * The retry loop of the `/plan` handler: up to three invocations of the
 * planning agent, each answer parsed and checked for the required top-level
 * fields, a corrective prompt after an answer that lacks some of them, and
 * a two-second pause between attempts.
 *
 * The agent is a function of the attempt number and the prompt text, so any
 * sequence of answers, including ones that depend on the prompt, can be
 * described. Pauses are recorded as events rather than taken.
 */
module RetryLoop {
  import opened Wrappers
  import opened Text
  import opened JsonValue
  import Extraction

  const MaxRetries: nat := 3

  const RequiredFields: seq<string> := ["flights", "hotels", "daily_plan"]

  /** What one invocation of the agent gives: the last message's content, or an exception. */
  datatype Outcome = Content(text: string) | Raised

  /** The agent, answering the prompt of the given attempt (numbered from 1). */
  type Agent = (nat, string) -> Outcome

  /** What the loop does in the outside world: invoke the agent, or sleep for two seconds. */
  datatype Event = Invoke(prompt: string) | Sleep

  // ---------------------------------------------------------------------
  // Required fields
  // ---------------------------------------------------------------------

  /**
   * `all(field in data for field in required_fields)`; None when the
   * membership test raises TypeError (the value is not a dict, list or str).
   */
  function AllPresent(data: Json): (r: Option<bool>)
    ensures r.None? <==> !(data.JObject? || data.JArray? || data.JString?)
  {
    if Member("flights", data).None? then None
    else Some(Member("flights", data) == Some(true)
              && Member("hotels", data) == Some(true)
              && Member("daily_plan", data) == Some(true))
  }

  /** The check succeeds exactly when every required field is a member. */
  lemma AllPresentMeansEveryField(data: Json)
    ensures AllPresent(data) == Some(true) <==> forall f :: f in RequiredFields ==> Member(f, data) == Some(true)
  {
  }

  /** The fields of `fields` that `data` lacks, in their order. */
  function MissingAmong(fields: seq<string>, data: Json): (r: seq<string>)
    ensures |r| <= |fields|
    ensures forall f :: f in r <==> f in fields && Member(f, data) == Some(false)
  {
    if fields == [] then []
    else if Member(fields[0], data) == Some(false) then [fields[0]] + MissingAmong(fields[1..], data)
    else MissingAmong(fields[1..], data)
  }

  /** `[field for field in required_fields if field not in data]`. */
  function Missing(data: Json): seq<string> {
    MissingAmong(RequiredFields, data)
  }

  /** For a container, the fields are all present exactly when none is missing. */
  lemma AllPresentIffNoneMissing(data: Json)
    requires AllPresent(data).Some?
    ensures AllPresent(data) == Some(true) <==> Missing(data) == []
  {
    AllPresentMeansEveryField(data);
    assert forall f :: f in RequiredFields ==> Member(f, data).Some?;
    if Missing(data) != [] {
      assert Missing(data)[0] in Missing(data);
    }
  }

  /** The missing list keeps the order of the required fields: it is a subsequence of them. */
  lemma {:induction false} MissingInOrder(fields: seq<string>, data: Json, i: nat, j: nat)
    requires i < j < |MissingAmong(fields, data)|
    ensures exists a, b ::
      0 <= a < b < |fields| && fields[a] == MissingAmong(fields, data)[i] && fields[b] == MissingAmong(fields, data)[j]
    decreases |fields|
  {
    var r := MissingAmong(fields, data);
    var rest := MissingAmong(fields[1..], data);
    if Member(fields[0], data) == Some(false) {
      assert r == [fields[0]] + rest;
      if i == 0 {
        assert r[j] in rest by { assert r[j] == rest[j - 1]; }
        var b :| 0 <= b < |fields[1..]| && fields[1..][b] == r[j];
        assert fields[b + 1] == r[j];
      } else {
        assert r[i] == rest[i - 1] && r[j] == rest[j - 1];
        MissingInOrder(fields[1..], data, i - 1, j - 1);
        var a, b :| 0 <= a < b < |fields[1..]| && fields[1..][a] == rest[i - 1] && fields[1..][b] == rest[j - 1];
        assert fields[a + 1] == r[i] && fields[b + 1] == r[j];
      }
    } else {
      assert r == rest;
      MissingInOrder(fields[1..], data, i, j);
      var a, b :| 0 <= a < b < |fields[1..]| && fields[1..][a] == rest[i] && fields[1..][b] == rest[j];
      assert fields[a + 1] == r[i] && fields[b + 1] == r[j];
    }
  }

  /** A value holding every required field is truthy, so `success and data` reduces to `success`. */
  lemma AllPresentIsTruthy(data: Json)
    requires AllPresent(data) == Some(true)
    ensures Truthy(data)
  {
    assert "flights" in RequiredFields;
    MemberImpliesTruthy("flights", data);
  }

  // ---------------------------------------------------------------------
  // The corrective prompt
  // ---------------------------------------------------------------------

  /** Python's `repr` of a list of plain field names: `['hotels', 'daily_plan']`. */
  function ListRepr(items: seq<string>): string {
    "[" + ItemsRepr(items) + "]"
  }

  function ItemsRepr(items: seq<string>): string {
    if items == [] then []
    else if |items| == 1 then "'" + items[0] + "'"
    else "'" + items[0] + "', " + ItemsRepr(items[1..])
  }

  /** The indentation the triple-quoted prompt carries on its second and third lines. */
  const Indent: string := "                        "

  const RetryLead: string := "Your previous response was missing these required fields: "

  const PleaseLine: string := "Please provide a complete response with ALL required fields according to the schema.\n"

  const RequestLead: string := "Original request: "

  /** The prompt that replaces the current one after an answer that lacks fields. */
  function RetryPrompt(missing: seq<string>, request: string): string {
    RetryLead + ListRepr(missing) + ".\n" + Indent + PleaseLine + Indent + RequestLead + request
  }

  /** The corrective prompt names the missing fields first and ends with the original request. */
  lemma RetryPromptShape(missing: seq<string>, request: string)
    ensures var p := RetryPrompt(missing, request);
      && StartsWith(p, RetryLead + ListRepr(missing) + ".\n")
      && |p| >= |request| && p[|p| - |request|..] == request
  {
    var head := RetryLead + ListRepr(missing) + ".\n";
    var mid := Indent + PleaseLine + Indent + RequestLead;
    var p := RetryPrompt(missing, request);
    assert p == head + mid + request;
    assert p[..|head|] == head;
    assert p[|p| - |request|..] == request;
  }

  // ---------------------------------------------------------------------
  // One attempt, and the loop as a function
  // ---------------------------------------------------------------------

  /** The loop's variables: `attempt`, `success`, `final_message`, `itinerary_data`, `user_prompt`. */
  datatype LoopState = LoopState(
    attempt: nat,
    success: bool,
    finalMessage: Option<string>,
    data: Option<Json>,
    prompt: string,
    events: seq<Event>)

  function Init(request: string): LoopState {
    LoopState(0, false, None, None, request, [])
  }

  /** An answer that ends the loop: non-blank content that parses to a value holding every field. */
  predicate Complete(parse: Extraction.Parser, o: Outcome) {
    o.Content? && !IsBlank(o.text) && parse(o.text).Ok? && AllPresent(parse(o.text).value) == Some(true)
  }

  /** An answer that replaces the prompt: it parses, but lacks some field. */
  predicate Incomplete(parse: Extraction.Parser, o: Outcome) {
    o.Content? && !IsBlank(o.text) && parse(o.text).Ok? && AllPresent(parse(o.text).value) == Some(false)
  }

  /** The prompt for the attempt after answer `o` to prompt `p`. */
  function NextPrompt(parse: Extraction.Parser, request: string, o: Outcome, p: string): string {
    if Incomplete(parse, o) then RetryPrompt(Missing(parse(o.text).value), request) else p
  }

  /** Lines 36-68: what the answer to one invocation does to the loop's variables. */
  function Answer(parse: Extraction.Parser, request: string, st: LoopState, o: Outcome): (r: LoopState)
    requires !st.success
    ensures r.attempt == st.attempt && r.events == st.events
    ensures r.success <==> Complete(parse, o)
    ensures r.prompt == NextPrompt(parse, request, o, st.prompt)
    ensures r.success ==> r.data.Some? && AllPresent(r.data.value) == Some(true)
    ensures r.finalMessage == if o.Content? then Some(o.text) else st.finalMessage
  {
    match o
    case Raised => st
    case Content(c) =>
      var st1 := st.(finalMessage := Some(c));
      if IsBlank(c) then st1
      else
        match parse(c)
        case Err(_) => st1
        case Ok(v) =>
          match AllPresent(v)
          case None => st1.(data := Some(v))
          case Some(true) => st1.(data := Some(v), success := true)
          case Some(false) => st1.(data := Some(v), prompt := RetryPrompt(Missing(v), request))
  }

  /** Lines 71-73: the pause, taken only when the loop is about to go round again. */
  function Pause(st: LoopState): (r: LoopState)
    ensures r.events == st.events + (if !st.success && st.attempt < MaxRetries then [Sleep] else [])
    ensures r == st.(events := r.events)
  {
    if !st.success && st.attempt < MaxRetries then st.(events := st.events + [Sleep]) else st
  }

  /** One pass through the loop body, including the pause that may follow it. */
  function Round(agent: Agent, parse: Extraction.Parser, request: string, st: LoopState): (r: LoopState)
    requires !st.success && st.attempt < MaxRetries
    ensures r.attempt == st.attempt + 1
    ensures r.success <==> Complete(parse, agent(r.attempt, st.prompt))
    ensures r.prompt == NextPrompt(parse, request, agent(r.attempt, st.prompt), st.prompt)
    ensures r.events == st.events + [Invoke(st.prompt)] + (if !r.success && r.attempt < MaxRetries then [Sleep] else [])
  {
    var attempt := st.attempt + 1;
    var invoked := st.(attempt := attempt, events := st.events + [Invoke(st.prompt)]);
    Pause(Answer(parse, request, invoked, agent(attempt, st.prompt)))
  }

  /** The rest of the loop from a given state. */
  function RunFrom(agent: Agent, parse: Extraction.Parser, request: string, st: LoopState): LoopState
    decreases MaxRetries - st.attempt
  {
    if st.success || st.attempt >= MaxRetries then st
    else RunFrom(agent, parse, request, Round(agent, parse, request, st))
  }

  /** The state the loop leaves behind. */
  function Run(agent: Agent, parse: Extraction.Parser, request: string): LoopState {
    RunFrom(agent, parse, request, Init(request))
  }

  // ---------------------------------------------------------------------
  // The loop, step by step
  // ---------------------------------------------------------------------

  /** The handler's retry loop, with its own variables. */
  method RetryAttempts(agent: Agent, parse: Extraction.Parser, request: string) returns (st: LoopState)
    ensures st == Run(agent, parse, request)
    ensures 1 <= st.attempt <= MaxRetries
    ensures st.success || st.attempt == MaxRetries
  {
    var attempt := 0;
    var success := false;
    var finalMessage: Option<string> := None;
    var data: Option<Json> := None;
    var prompt := request;
    var events: seq<Event> := [];
    while !success && attempt < MaxRetries
      invariant attempt <= MaxRetries
      invariant RunFrom(agent, parse, request, LoopState(attempt, success, finalMessage, data, prompt, events))
             == Run(agent, parse, request)
    {
      ghost var before := LoopState(attempt, success, finalMessage, data, prompt, events);
      attempt := attempt + 1;
      events := events + [Invoke(prompt)];
      var outcome := agent(attempt, prompt);
      ghost var invoked := LoopState(attempt, success, finalMessage, data, prompt, events);
      assert invoked == before.(attempt := before.attempt + 1, events := before.events + [Invoke(before.prompt)]);
      success, finalMessage, data, prompt := TakeAnswer(parse, request, outcome, finalMessage, data, prompt);
      ghost var answered := LoopState(attempt, success, finalMessage, data, prompt, events);
      assert answered == Answer(parse, request, invoked, outcome);
      if !success && attempt < MaxRetries {
        events := events + [Sleep];
      }
      assert LoopState(attempt, success, finalMessage, data, prompt, events) == Pause(answered);
      RoundUnfolds(agent, parse, request, before);
      assert Round(agent, parse, request, before) == LoopState(attempt, success, finalMessage, data, prompt, events);
      RunFromUnfolds(agent, parse, request, before);
    }
    st := LoopState(attempt, success, finalMessage, data, prompt, events);
    LoopExit(agent, parse, request, st);
  }

  /**
   * The body of the loop's `try` block: record the message, parse non-blank
   * content, and check the required fields.
   */
  method TakeAnswer(parse: Extraction.Parser, request: string, outcome: Outcome,
                    finalMessage: Option<string>, data: Option<Json>, prompt: string)
    returns (success': bool, finalMessage': Option<string>, data': Option<Json>, prompt': string)
    ensures forall attempt: nat, events: seq<Event> ::
      LoopState(attempt, success', finalMessage', data', prompt', events)
      == Answer(parse, request, LoopState(attempt, false, finalMessage, data, prompt, events), outcome)
  {
    success', finalMessage', data', prompt' := false, finalMessage, data, prompt;
    if outcome.Content? {
      var content := outcome.text;
      finalMessage' := Some(content);
      if !IsBlank(content) {
        var parsed := parse(content);
        if parsed.Ok? {
          data' := Some(parsed.value);
          var present := AllPresent(parsed.value);
          if present == Some(true) {
            success' := true;
          } else if present == Some(false) {
            prompt' := RetryPrompt(Missing(parsed.value), request);
          }
        }
      }
    }
  }

  lemma RunFromUnfolds(agent: Agent, parse: Extraction.Parser, request: string, st: LoopState)
    requires !st.success && st.attempt < MaxRetries
    ensures RunFrom(agent, parse, request, st) == RunFrom(agent, parse, request, Round(agent, parse, request, st))
  {
  }

  /** When the loop condition fails, the state reached is the final one. */
  lemma LoopExit(agent: Agent, parse: Extraction.Parser, request: string, st: LoopState)
    requires st.success || st.attempt >= MaxRetries
    requires RunFrom(agent, parse, request, st) == Run(agent, parse, request)
    ensures st == Run(agent, parse, request)
    ensures 1 <= st.attempt <= MaxRetries
    ensures st.success || st.attempt == MaxRetries
  {
    RunBounds(agent, parse, request);
  }

  lemma RoundUnfolds(agent: Agent, parse: Extraction.Parser, request: string, st: LoopState)
    requires !st.success && st.attempt < MaxRetries
    ensures Round(agent, parse, request, st)
         == Pause(Answer(parse, request, st.(attempt := st.attempt + 1, events := st.events + [Invoke(st.prompt)]),
                         agent(st.attempt + 1, st.prompt)))
  {
  }

  // ---------------------------------------------------------------------
  // What the loop guarantees
  // ---------------------------------------------------------------------

  /** The prompts the agent was invoked with, in order. */
  function Invocations(events: seq<Event>): (ps: seq<string>)
    ensures |ps| <= |events|
  {
    if events == [] then []
    else
      var last := events[|events| - 1];
      Invocations(events[..|events| - 1]) + (if last.Invoke? then [last.prompt] else [])
  }

  /** Invokes and sleeps alternate, starting with an invoke. */
  predicate Alternates(events: seq<Event>) {
    forall k :: 0 <= k < |events| ==> (events[k].Sleep? <==> k % 2 == 1)
  }

  /**
   * What holds of every state the loop reaches: the trace alternates and
   * has one invoke per attempt and a sleep after each attempt but one that
   * ends the loop; each prompt follows from the previous answer; no answer
   * but possibly the last was complete; and `success` says whether the last
   * one was.
   */
  predicate Reached(agent: Agent, parse: Extraction.Parser, request: string, st: LoopState) {
    TraceShape(st) && History(agent, parse, request, st)
  }

  /** The trace: alternating, one invoke per attempt, a sleep after all but a final attempt. */
  predicate TraceShape(st: LoopState) {
    && st.attempt <= MaxRetries
    && Alternates(st.events)
    && |Invocations(st.events)| == st.attempt
    && |st.events| == (if st.attempt == 0 then 0
                       else if st.success || st.attempt == MaxRetries then 2 * st.attempt - 1
                       else 2 * st.attempt)
  }

  /** The prompts and answers so far, and what `success` and `data` record of them. */
  predicate History(agent: Agent, parse: Extraction.Parser, request: string, st: LoopState) {
    var ps := Invocations(st.events);
    && PromptChain(agent, parse, request, ps, st.prompt)
    && NoEarlyComplete(agent, parse, ps)
    && (st.success <==> ps != [] && Complete(parse, agent(|ps|, ps[|ps| - 1])))
    && (st.success ==> st.data.Some? && AllPresent(st.data.value) == Some(true))
    && st.finalMessage == LastText(agent, ps)
  }

  /** The content of the last answer among the attempts with prompts `ps`; None when every one raised. */
  function LastText(agent: Agent, ps: seq<string>): Option<string> {
    if ps == [] then None
    else
      match agent(|ps|, ps[|ps| - 1])
      case Content(t) => Some(t)
      case Raised => LastText(agent, ps[..|ps| - 1])
  }

  lemma LastTextStep(agent: Agent, ps: seq<string>, p: string)
    ensures LastText(agent, ps + [p]) == (match agent(|ps| + 1, p) case Content(t) => Some(t) case Raised => LastText(agent, ps))
  {
    assert (ps + [p])[..|ps|] == ps;
  }

  /**
   * The message the loop keeps is the answer of the last attempt that did
   * not raise: None exactly when every attempt raised.
   */
  lemma {:induction false} LastTextMeaning(agent: Agent, ps: seq<string>)
    ensures LastText(agent, ps).None? <==> forall k :: 0 <= k < |ps| ==> agent(k + 1, ps[k]).Raised?
    ensures LastText(agent, ps).Some? ==> exists k ::
      && 0 <= k < |ps| && agent(k + 1, ps[k]) == Content(LastText(agent, ps).value)
      && forall j :: k < j < |ps| ==> agent(j + 1, ps[j]).Raised?
  {
    if ps != [] {
      var init := ps[..|ps| - 1];
      LastTextMeaning(agent, init);
      assert forall k :: 0 <= k < |init| ==> init[k] == ps[k];
      if agent(|ps|, ps[|ps| - 1]).Raised? && LastText(agent, init).Some? {
        var k :| 0 <= k < |init| && agent(k + 1, init[k]) == Content(LastText(agent, init).value)
          && forall j :: k < j < |init| ==> agent(j + 1, init[j]).Raised?;
        assert agent(k + 1, ps[k]) == Content(LastText(agent, ps).value);
      }
    }
  }

  /**
   * The first prompt is the request, each later one follows from the answer
   * to its predecessor, and `current` is the one the next attempt would use.
   */
  predicate PromptChain(agent: Agent, parse: Extraction.Parser, request: string, ps: seq<string>, current: string) {
    Chain(ps, request, current, NextFor(agent, parse, request))
  }

  /** The prompt after attempt `k` with prompt `p`. */
  function NextFor(agent: Agent, parse: Extraction.Parser, request: string): (nat, string) -> string {
    (k: nat, p: string) => NextPrompt(parse, request, agent(k, p), p)
  }

  /** `xs` starts at `first`, each element is `next` of its predecessor, and `current` follows the last. */
  predicate Chain(xs: seq<string>, first: string, current: string, next: (nat, string) -> string) {
    && (xs != [] ==> xs[0] == first)
    && (forall k :: 0 < k < |xs| ==> xs[k] == next(k, xs[k - 1]))
    && current == (if xs == [] then first else next(|xs|, xs[|xs| - 1]))
  }

  lemma {:induction false} ChainStep(xs: seq<string>, first: string, current: string, next: (nat, string) -> string)
    requires Chain(xs, first, current, next)
    ensures Chain(xs + [current], first, next(|xs| + 1, current), next)
  {
    var ys := xs + [current];
    forall k | 0 < k < |ys| ensures ys[k] == next(k, ys[k - 1]) {
      if k < |xs| { assert ys[k] == xs[k] && ys[k - 1] == xs[k - 1]; }
    }
  }

  /** No answer but possibly the last was complete. */
  predicate NoEarlyComplete(agent: Agent, parse: Extraction.Parser, ps: seq<string>) {
    forall k :: 0 <= k < |ps| - 1 ==> !Complete(parse, agent(k + 1, ps[k]))
  }

  lemma {:induction false} NoEarlyCompleteStep(agent: Agent, parse: Extraction.Parser, ps: seq<string>, p: string)
    requires NoEarlyComplete(agent, parse, ps)
    requires ps != [] ==> !Complete(parse, agent(|ps|, ps[|ps| - 1]))
    ensures NoEarlyComplete(agent, parse, ps + [p])
  {
    var qs := ps + [p];
    forall k | 0 <= k < |qs| - 1 ensures !Complete(parse, agent(k + 1, qs[k])) {
      assert qs[k] == ps[k];
    }
  }

  lemma InvocationsAppend(events: seq<Event>, e: Event)
    ensures Invocations(events + [e]) == Invocations(events) + (if e.Invoke? then [e.prompt] else [])
  {
    assert (events + [e])[..|events|] == events;
  }

  lemma {:induction false} RoundKeepsReached(agent: Agent, parse: Extraction.Parser, request: string, st: LoopState)
    requires Reached(agent, parse, request, st) && !st.success && st.attempt < MaxRetries
    ensures Reached(agent, parse, request, Round(agent, parse, request, st))
  {
    var r := Round(agent, parse, request, st);
    var ps := Invocations(st.events);
    var ev1 := st.events + [Invoke(st.prompt)];
    InvocationsAppend(st.events, Invoke(st.prompt));
    InvocationsAppend(ev1, Sleep);
    assert Invocations(r.events) == ps + [st.prompt];
    TraceStep(st.events, st.prompt, r.events, st.attempt, r.success);
    ChainStep(ps, request, st.prompt, NextFor(agent, parse, request));
    NoEarlyCompleteStep(agent, parse, ps, st.prompt);
    LastTextStep(agent, ps, st.prompt);
  }

  /** The trace after one more round still alternates and has the right length. */
  lemma {:induction false} TraceStep(events: seq<Event>, p: string, next: seq<Event>, attempt: nat, success: bool)
    requires Alternates(events) && attempt < MaxRetries && |events| == 2 * attempt
    requires next == events + [Invoke(p)] + (if !success && attempt + 1 < MaxRetries then [Sleep] else [])
    ensures Alternates(next)
    ensures |next| == (if success || attempt + 1 == MaxRetries then 2 * (attempt + 1) - 1 else 2 * (attempt + 1))
  {
  }

  lemma {:induction false} RunFromKeepsReached(agent: Agent, parse: Extraction.Parser, request: string, st: LoopState)
    requires Reached(agent, parse, request, st)
    ensures Reached(agent, parse, request, RunFrom(agent, parse, request, st))
    ensures var r := RunFrom(agent, parse, request, st);
      && (r.success || r.attempt == MaxRetries)
      && (!st.success && st.attempt < MaxRetries ==> r.attempt > st.attempt)
    decreases MaxRetries - st.attempt
  {
    if !st.success && st.attempt < MaxRetries {
      RoundKeepsReached(agent, parse, request, st);
      RunFromKeepsReached(agent, parse, request, Round(agent, parse, request, st));
    }
  }

  lemma InitReached(agent: Agent, parse: Extraction.Parser, request: string)
    ensures Reached(agent, parse, request, Init(request))
  {
    assert Invocations([]) == [];
  }

  /** A finished loop's trace has one sleep fewer than invokes and ends with an invoke. */
  lemma FinishedTrace(events: seq<Event>, attempt: nat)
    requires Alternates(events) && 1 <= attempt && |events| == 2 * attempt - 1
    ensures events[|events| - 1].Invoke?
  {
    assert (|events| - 1) % 2 == 0;
  }

  /** The final state of the loop: 1 to 3 attempts, and the trace that goes with them. */
  lemma {:induction false} RunReached(agent: Agent, parse: Extraction.Parser, request: string)
    ensures Reached(agent, parse, request, Run(agent, parse, request))
    ensures var r := Run(agent, parse, request); 1 <= r.attempt && (r.success || r.attempt == MaxRetries)
  {
    InitReached(agent, parse, request);
    RunFromKeepsReached(agent, parse, request, Init(request));
  }

  /** The loop ends after 1 to 3 attempts, and before the third only on success. */
  lemma RunBounds(agent: Agent, parse: Extraction.Parser, request: string)
    ensures var r := Run(agent, parse, request);
      1 <= r.attempt <= MaxRetries && (r.success || r.attempt == MaxRetries)
  {
    RunReached(agent, parse, request);
  }

  /** What a reached state records about its answers. */
  lemma HistoryFacts(agent: Agent, parse: Extraction.Parser, request: string, st: LoopState)
    requires History(agent, parse, request, st)
    ensures st.finalMessage == LastText(agent, Invocations(st.events))
    ensures st.success ==> st.data.Some? && AllPresent(st.data.value) == Some(true)
  {
  }

  /**
   * After the loop, `final_message` is the last answer that did not raise,
   * and a success left data holding every required field.
   */
  lemma RunRecords(agent: Agent, parse: Extraction.Parser, request: string)
    ensures var r := Run(agent, parse, request);
      && r.finalMessage == LastText(agent, Invocations(r.events))
      && (r.success ==> r.data.Some? && AllPresent(r.data.value) == Some(true))
  {
    RunReached(agent, parse, request);
    HistoryFacts(agent, parse, request, Run(agent, parse, request));
  }

  /** A finished loop has made 1 to 3 attempts, and its trace ends with an invocation. */
  lemma FinishedShape(agent: Agent, parse: Extraction.Parser, request: string, st: LoopState)
    requires Reached(agent, parse, request, st)
    requires 1 <= st.attempt && (st.success || st.attempt == MaxRetries)
    ensures st.attempt <= MaxRetries
    ensures |Invocations(st.events)| == st.attempt
    ensures |st.events| == 2 * st.attempt - 1 && st.events[|st.events| - 1].Invoke?
  {
    FinishedTrace(st.events, st.attempt);
  }

  /**
   * Success happens exactly when the last answer is complete, and no
   * earlier one was: the agent is never invoked after a success.
   */
  lemma SuccessIsLastAnswer(agent: Agent, parse: Extraction.Parser, request: string)
    ensures var r := Run(agent, parse, request); var ps := Invocations(r.events);
      && 1 <= r.attempt == |ps|
      && (r.success <==> Complete(parse, agent(r.attempt, ps[r.attempt - 1])))
      && forall k :: 0 <= k < r.attempt - 1 ==> !Complete(parse, agent(k + 1, ps[k]))
  {
    RunReached(agent, parse, request);
    FinishedShape(agent, parse, request, Run(agent, parse, request));
  }

  /** Sleeps sit between attempts only: one fewer than the invocations, none after the last. */
  lemma SleepsBetweenAttempts(agent: Agent, parse: Extraction.Parser, request: string)
    ensures var r := Run(agent, parse, request);
      forall k :: 0 <= k < |r.events| ==> (r.events[k] == Sleep <==> k % 2 == 1 && k < |r.events| - 1)
  {
    RunReached(agent, parse, request);
    FinishedSleeps(Run(agent, parse, request));
  }

  lemma FinishedSleeps(st: LoopState)
    requires TraceShape(st)
    requires 1 <= st.attempt && (st.success || st.attempt == MaxRetries)
    ensures forall k :: 0 <= k < |st.events| ==> (st.events[k] == Sleep <==> k % 2 == 1 && k < |st.events| - 1)
  {
    assert Alternates(st.events) && |st.events| == 2 * st.attempt - 1;
  }

  /**
   * The first prompt is the request itself; a later one differs from its
   * predecessor only after an answer that parsed but lacked fields, and
   * then it names those fields and embeds the original request.
   */
  lemma PromptChangesOnlyOnMissing(agent: Agent, parse: Extraction.Parser, request: string, k: nat)
    requires var r := Run(agent, parse, request); 0 < k < |Invocations(r.events)|
    ensures var ps := Invocations(Run(agent, parse, request).events);
      && ps[0] == request
      && (!Incomplete(parse, agent(k, ps[k - 1])) ==> ps[k] == ps[k - 1])
      && (Incomplete(parse, agent(k, ps[k - 1])) ==>
            ps[k] == RetryPrompt(Missing(parse(agent(k, ps[k - 1]).text).value), request))
  {
    RunReached(agent, parse, request);
    FinishedShape(agent, parse, request, Run(agent, parse, request));
    var ps := Invocations(Run(agent, parse, request).events);
    assert ps[k] == NextFor(agent, parse, request)(k, ps[k - 1]);
  }
}
