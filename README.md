# Travel itinerary planner: the backend's answer handling and the page's rules

This project models, in Dafny, the parts of the travel itinerary planner that
decide what the user sees:

- the `/plan` handler (`backend/main.py`):
  - it asks the planning agent for an itinerary up to three times. An answer
    counts when it parses as JSON holding `flights`, `hotels` and `daily_plan`.
    An answer that parses but lacks fields makes the next prompt name the
    missing ones. The loop sleeps between attempts;
  - after the loop, the handler either sends the loop's data, or re-parses the
    last answer through a cascade (direct parse, `fix_json`, a fenced code
    block, the text between the first two fences, the outermost braces);
  - as a last resort it sends one of two fallback itineraries:
    `partial_success` for a blank answer, and `success` with an error record
    when extraction fails;
- the helpers of `utils.py`: `extract_price`, `is_valid_location`,
  `is_valid_date_range` and `calculate_duration_estimate`;
- the flight list of the page (`new_display_flights.py`):
  - ordering by price, with the first flight tagged "Best Value";
  - the stops label;
  - the current fare-class columns;
  - baggage allowances that fall back to defaults by class.

The outside world is passed in:

- the agent is a function from the attempt number and the prompt to an
  answer or an exception;
- `json.loads` is a parser returning a value or the text of its error;
- `json.dumps` of the request, `str()` of a container and `datetime.strptime`
  are functions given as parameters;
- today's date is a parameter of the date-range check.

Regular expressions are written out as explicit scans, with Python's
leftmost, greedy and backtracking choices made explicit.

Modules, one per file:

- `Wrappers`: Option and Result.
- `Text`: Python's whitespace, digits, `strip`, `find`/`in`, `str(n)`.
- `JsonValue`: the JSON values `json.loads` returns, with Python truthiness and `in`.
- `FixJson`: `fix_json`.
- `Extraction`: the re-parse cascade.
- `RetryLoop`: the attempt loop.
- `Endpoint`: the handler after the loop, and the reply.
- `Prices`: `extract_price`.
- `Validation`: the location and date-range checks.
- `Duration`: `calculate_duration_estimate`.
- `Flights`: `display_flights`.

## Model

| member | source | states |
|---|---|---|
| Text.Strip | backend/main.py:43 | `str.strip()`: the result is the slice between the leading and the trailing whitespace, and its ends are not whitespace |
| Text.BlankIffAllSpace | backend/main.py:87 | `s.strip() == ""` holds exactly when every character is whitespace |
| Text.ContainsIffOccurs | new_display_flights.py:96 | `pat in s` on strings holds exactly when `pat` occurs at some position |
| JsonValue.Member | backend/main.py:50 | `field in data` is defined for dicts, lists and strings, and raises for every other value |
| JsonValue.MemberMeaning | backend/main.py:50 | `in` tests a dict's keys, a list's elements and a string's substrings |
| JsonValue.MemberImpliesTruthy | backend/main.py:82 | a value that contains a non-empty field name is truthy |
| FixJson.Fix | backend/main.py:122-131 | `fix_json` only deletes commas and whitespace in its first step, and only adds quotes and removes whitespace in its second |
| FixJson.DropTrailingCommasOnlyDeletes | backend/main.py:126 | removing trailing commas never lengthens the text and keeps every character other than commas and whitespace, in order |
| FixJson.DropTrailingCommasFixesClean | backend/main.py:126 | a text without a comma before a closing bracket is left unchanged |
| FixJson.DropTrailingCommasCopies | backend/main.py:126 | a comma-free prefix is copied unchanged |
| FixJson.DropTrailingCommasLeavesNone | backend/main.py:126 | without two commas in a row, no comma is left before a closing bracket |
| FixJson.DropTrailingCommasIdempotent | backend/main.py:126 | without two commas in a row, applying the substitution twice gives what applying it once gives |
| FixJson.RepeatedCommasNeedTwoPasses | backend/main.py:126 | `,,]` becomes `,]`: one pass leaves a trailing comma after a repeated one |
| FixJson.BareKeyAt | backend/main.py:128 | a match of `([{,])\s*(\w+)\s*:` at the head: an opener, spaces, a word, spaces, a colon |
| FixJson.BareKeyAtComplete | backend/main.py:128 | every match of the pattern at the head is found, with its word bounds and colon position |
| FixJson.QuoteKeysOnlyQuotesAndSpaces | backend/main.py:128 | quoting keys changes only quotes and whitespace |
| FixJson.QuoteKeysFixesClean | backend/main.py:128 | a text with no bare key is left unchanged |
| FixJson.QuoteKeysCopies | backend/main.py:128 | a prefix with no `{` or `,` is copied unchanged |
| FixJson.NoBareKeyKept | backend/main.py:128 | the substitution does not rescan its own output: after a non-match, the rewritten rest starts no new match |
| FixJson.QuoteKeysIdempotent | backend/main.py:128 | quoting keys twice gives what quoting once gives |
| FixJson.QuoteKeysIgnoresStrings | backend/main.py:128 | a `,word:` inside a string value is rewritten like a key: the substitution does not know about string literals |
| Extraction.FencedBlock | backend/main.py:154-156 | the block exists exactly when some position starts a fence, an optional `json`, a newline, and is followed by a newline and a closing fence |
| Extraction.FirstFence | backend/main.py:154 | the search returns the leftmost position where the fenced pattern matches |
| Extraction.FenceMatchAt | backend/main.py:154 | the lazy group ends at the first newline-fence after the group's start |
| Extraction.SplitJoin | backend/main.py:165 | joining the pieces of `content.split('```')` with the fence gives back the text |
| Extraction.SplitPiecesFree | backend/main.py:165 | no piece of the split contains the fence |
| Extraction.SplitCountsMarker | backend/main.py:151 | the text contains a fence exactly when the split gives two pieces or more |
| Extraction.DropLanguageTag | backend/main.py:169-173 | the candidate has no whitespace at either end and is at least four characters shorter than the piece when the `json` tag is dropped |
| Extraction.TaggedBlock | backend/main.py:165-173 | a piece holding `json`, a newline, a block and a newline gives the block |
| Extraction.BraceSpan | backend/main.py:182-184 | the brace span exists exactly when an opening brace comes before a closing one, and it starts with `{` and ends with `}` |
| Extraction.MarkerTest | backend/main.py:151 | testing for "```json" or "```" is testing for "```" |
| Extraction.ExtractJsonFollowsPlan | backend/main.py:133-194 | the cascade returns the first of its candidate texts that parses, in order, and otherwise the last candidate's error, or the fixed message when the last resort finds no braces |
| Extraction.FirstParseIsFirst | backend/main.py:133-194 | a result comes from the first candidate that parses, and every earlier candidate fails; the result is an error only when every candidate fails |
| Extraction.PlanStartsWithWhole | backend/main.py:137-147 | the whole content is tried first, then its repaired form |
| Extraction.PlanPairsRepairs | backend/main.py:155-190 | at most one extracted text is tried, and always directly first and then repaired |
| Extraction.FenceFreeReraises | backend/main.py:149-151 | without a fence, the error of the repaired whole content is raised again |
| Extraction.BraceScanNeedsOneMarker | backend/main.py:179-182 | the brace scan is reached only when the text holds exactly one fence |
| Extraction.TwoMarkersGiveCandidate | backend/main.py:150-177 | with two fences or more, a fenced block or the text between fences is always tried |
| Extraction.GiveUpOnlyWithoutBraces | backend/main.py:191-192 | "Could not extract JSON" is raised exactly when there is one fence, no fenced block and no brace span |
| RetryLoop.AllPresent | backend/main.py:49-50 | `all(field in data ...)` is defined exactly for dicts, lists and strings |
| RetryLoop.AllPresentMeansEveryField | backend/main.py:49-50 | the check holds exactly when each of `flights`, `hotels`, `daily_plan` is in the value |
| RetryLoop.MissingAmong | backend/main.py:54 | the missing list holds exactly the required fields that are absent |
| RetryLoop.AllPresentIffNoneMissing | backend/main.py:50-54 | all fields are present exactly when the missing list is empty |
| RetryLoop.MissingInOrder | backend/main.py:54 | the missing fields keep the order of the required list |
| RetryLoop.AllPresentIsTruthy | backend/main.py:82 | data holding the required fields is truthy, so `success and itinerary_data` reduces to `success` |
| RetryLoop.RetryPromptShape | backend/main.py:58-60 | the retry prompt starts with the sentence naming the missing fields as a Python list and ends with the original request |
| RetryLoop.Answer | backend/main.py:37-66 | an attempt succeeds exactly when its answer is complete; success implies data with every field; the last message is the latest answer that did not raise |
| RetryLoop.Round | backend/main.py:30-73 | one iteration invokes the agent once with the current prompt and advances the attempt number; it succeeds exactly when the answer is complete, moves to the next prompt, and records a sleep exactly when it failed and attempts remain |
| RetryLoop.RetryAttempts | backend/main.py:24-73 | the loop ends after one to three attempts, successful or with all three used, in the state the attempt function gives |
| RetryLoop.TakeAnswer | backend/main.py:37-66 | the branches on the answer update the state as one attempt of the loop does |
| RetryLoop.LastTextMeaning | backend/main.py:37-79 | the final message is missing exactly when every invocation raised; otherwise it is the text of the last invocation that did not raise |
| RetryLoop.RunRecords | backend/main.py:25-73 | after the loop, the final message is that last answer, and success implies data with every required field |
| RetryLoop.SuccessIsLastAnswer | backend/main.py:30-55 | the loop invokes the agent once per attempt, and succeeds exactly when the last answer is complete; no earlier answer was |
| RetryLoop.SleepsBetweenAttempts | backend/main.py:70-73 | the agent is invoked and sleeps in alternation, with no sleep after the last invocation |
| RetryLoop.PromptChangesOnlyOnMissing | backend/main.py:53-62 | the first prompt is the request; a later prompt changes only after an answer that parsed without all fields, to the retry prompt naming those fields |
| RetryLoop.RunBounds | backend/main.py:30 | the loop ends with one to three attempts and either success or three attempts |
| Endpoint.RawOutput | backend/main.py:200 | at most 503 characters: the content itself up to 500, otherwise its first 500 characters and `...` |
| Endpoint.FallbacksHaveRequiredFields | backend/main.py:90-97 | both fallback itineraries hold `flights`, `hotels` and `daily_plan` |
| Endpoint.Respond | backend/main.py:75-218 | the handler raises exactly when no attempt produced a message; otherwise the status is `success` or `partial_success` |
| Endpoint.SuccessSendsLoopData | backend/main.py:82-83 | after a successful loop the loop's data is sent with `success` |
| Endpoint.PartialOnlyForBlank | backend/main.py:84-113 | `partial_success` is sent exactly when the loop failed and the last answer is blank |
| Endpoint.ItineraryHasFieldsUnlessReparsed | backend/main.py:115-218 | every itinerary sent holds the required fields, except one re-parsed from a failed loop's last answer |
| Endpoint.FailureSendsError | backend/main.py:195-218 | a failed extraction sends the failure itinerary with the extraction's error, under `success` |
| Endpoint.BodyRoundTrip | backend/main.py:98-113 | reading the response body back gives the status, an empty traveller name, the request's count, dates, origin and destination, and the itinerary at `data.trip.itinerary` |
| Endpoint.Response | backend/main.py:220-235 | the handler sends no body exactly when it raises |
| Endpoint.GenerateItinerary | backend/main.py:10-235 | the handler sends the envelope around the reply chosen for the loop's final state, and nothing exactly when every invocation of the agent raised; the body it sends reads back as the chosen status and itinerary and the request's traveller count, dates and places |
| Prices.ExtractPrice | utils.py:34-72 | the loop removing the currency symbols gives the price the specification function defines |
| Prices.CaptureFrom | utils.py:64 | from a digit, the capture takes the whole digit run, and a fraction only when a dot and a digit follow it, the fraction run taken whole |
| Prices.CaptureIsUnique | utils.py:64 | a capture is determined by where it starts |
| Prices.FirstNumber | utils.py:64 | a number is found exactly when the text has a digit; its whole part is a non-empty digit run |
| Prices.FirstNumberCaptures | utils.py:64 | the number found is the capture that starts where no digit comes before |
| Prices.FirstNumberIsCapture | utils.py:64 | conversely, the capture at the first digit is the number found |
| Prices.CleanedReadsFirstNumber | utils.py:64-66 | a cleaned text with a digit gives the value of the capture at its first digit |
| Prices.TextPriceReadsFirstNumber | utils.py:50-66 | a string with a digit is priced by the capture at the first digit of its cleaned text |
| Prices.FirstOfTwoNumbers | utils.py:64-66 | `12or15` gives 12: only the first number counts |
| Prices.SecondDotEndsNumber | utils.py:64-66 | `1.5.3` gives 1.5: the fraction ends at the second dot |
| Prices.BareDotIgnored | utils.py:64-66 | `7.` gives 7: a dot with no digit after it is not part of the number |
| Prices.FromCleaned | utils.py:64-69 | a cleaned text with a digit gives a non-negative amount |
| Prices.WithoutKeeps | utils.py:57-61 | the cleaned text holds exactly the characters of the input that are not removed |
| Prices.WithoutAppend | utils.py:57-61 | removal works character by character: it distributes over concatenation |
| Prices.FalsyAndNumbers | utils.py:44-48 | None and "" give 0; integers and floats give their own value |
| Prices.TextWithDigitIsNonNegative | utils.py:50-66 | a string with a digit gives a non-negative amount |
| Prices.NoPriceWordGivesZeroAnyway | utils.py:51-52 | the "no price" words would give 0 even without their check |
| Prices.TextPriceIsCleanedPrice | utils.py:50-69 | a string's price depends only on its cleaned text |
| Prices.IgnoredCharactersDoNotMatter | utils.py:57-61 | two strings that differ only in currency symbols, commas and spaces have the same price |
| Prices.DecimalTextPrice | utils.py:64-66 | `digits.digits` gives its decimal value |
| Prices.WholeTextPrice | utils.py:64-66 | the text `str(n)` gives the price n |
| Prices.SymbolAndSeparatorIgnored | utils.py:55-66 | a symbol, thousands with a comma, and a decimal fraction (as in `$1,234.50`) give the number without symbol and comma |
| Prices.NoDigitsGiveZero | utils.py:64-72 | a string without digits that is not a float literal gives 0 |
| Validation.InvalidChars | utils.py:271 | every character found lies outside the allowed class |
| Validation.NoInvalidChars | utils.py:271-273 | nothing is found exactly when every character is allowed |
| Validation.ValidLocationIff | utils.py:267-275 | a location is valid exactly when its stripped length is at least 2 and every character is allowed |
| Validation.StripHasTwo | utils.py:267 | a stripped length of at least 2 means two non-whitespace characters |
| Validation.ValidLocationMeaning | utils.py:257-275 | a valid location holds two visible characters and only allowed ones |
| Validation.ValidRangeShift | utils.py:247-255 | only the distances between today, start and end matter |
| Validation.ValidRangeShrinks | utils.py:250-255 | a range inside a valid range is valid |
| Duration.MatchAtIsLongestToken | utils.py:105 | the pattern matches at a position exactly when some text starting there is a time token (one or two hour digits, `:MM`, optional `:SS`, optional ` AM`/`PM` with or without the space), and the match is the longest such text |
| Duration.FirstMatch | utils.py:105-106 | `re.search` gives the leftmost position where the time pattern matches, or none |
| Duration.MatchedTokenShape | utils.py:105-108 | a found token starts with a digit and has a colon and two digits after one or two hour digits |
| Duration.FirstFormatIsFirst | utils.py:111-127 | the time comes from the first format that accepts the token; there is none only when all four reject it |
| Duration.ParseTime | utils.py:115-120 | the loop over the formats, stopping at the first that parses, gives the first accepting format's time |
| Duration.Elapsed | utils.py:129-136 | the difference is (arrival − departure) mod 24 h, below one day |
| Duration.CalculateDurationEstimate | utils.py:88-149 | the method computes the estimate the specification function defines |
| Duration.ShowThenRead | utils.py:136-144 | reading the shown text back gives the difference in whole minutes |
| Duration.DurationExamples | utils.py:129-144 | equal times give `0m`; an arrival a minute before the departure gives `23h 59m` |
| Duration.UnparsedIsNotAvailable | utils.py:129-149 | a departure or an arrival that no format accepts gives "Duration information not available" |
| Flights.LessStrict | new_display_flights.py:10 | Python's `<` on the prices is irreflexive and asymmetric, NaN included |
| Flights.NotGreaterOrder | new_display_flights.py:10 | without NaN, "not greater" is transitive and any two prices compare |
| Flights.SortPermutes | new_display_flights.py:10 | sorting keeps every flight, each as often as before |
| Flights.SortIsStable | new_display_flights.py:10 | flights with the same price keep their original order |
| Flights.SortAscending | new_display_flights.py:10 | without NaN prices, the result is in ascending price order |
| Flights.SortFlightsMeaning | new_display_flights.py:9-13 | the list shown is a stable, price-ordered permutation of the flights, and unsorted when an element is not an object |
| Flights.AllowanceFollowsColumns | new_display_flights.py:93-107 | the default baggage agrees with the highlighted columns: Economy's allowance when Economy is current or none is, Premium's when Premium is current and Economy is not, Business's only when Business alone is |
| Flights.PremiumEconomyIsBoth | new_display_flights.py:96-101 | "premium economy" gets 20 kg / 7 kg and highlights both the Economy and the Premium column |
| Flights.MissingClassIsEconomy | new_display_flights.py:87 | a flight without a class counts as Economy: 20 kg / 7 kg and only the Economy column highlighted |
| Flights.BaggageShown | new_display_flights.py:110-117 | the allowance shown is never empty or `N/A`; a usable provided value is shown as given, otherwise the class default for that key: hand baggage for `hand_baggage`, check-in otherwise |
| Flights.Len | new_display_flights.py:44 | `len` of a truthy sized value is positive |
| Flights.DetailsGiveCount | new_display_flights.py:39-44 | listed layover details give a count of one stop or more; their "direct" branch cannot be reached |
| Flights.DirectMeaning | new_display_flights.py:39-75 | "Direct Flight" is shown exactly when `stops` is zero, or `layover` reads "direct flight", or no stop information is given |
| Flights.StopsLabelFails | new_display_flights.py:39-71 | the label raises exactly for unsized layover details or a layover that is not a string |
| Flights.MakeCard | new_display_flights.py:86-117 | the card, with the provided allowances overwritten where unusable, is the card the specification function defines |
| Flights.DisplayFlights | new_display_flights.py:1-17 | the loop over the sorted flights shows the cards the specification function defines |
| Flights.ShowFromFacts | new_display_flights.py:16 | the loop shows one card per flight, in order, up to the first card that raises |
| Flights.WarnsOnlyWhenEmpty | new_display_flights.py:4-6 | the warning is shown exactly for a missing or empty list |
| Flights.CardsFollowSortedFlights | new_display_flights.py:16-17 | the cards follow the sorted flights: all of them unless one raises, and only the first is tagged "Best Value" |
| Flights.BestValueIsCheapest | new_display_flights.py:10-17 | without NaN prices, no flight is cheaper than the one tagged "Best Value" |

## Left out

- The planning agent, the Groq model, the search tools and every HTTP call are left out. The agent's answers are a parameter.
- `fetch_itinerary_data`, `format_price`, the page helpers of `utils.py`, `app.py` and `config.py` are not part of this model.
- `json.loads` is a parameter, not a JSON grammar. Its error text is a parameter too.
- `json.dumps` of the request is a parameter, and so is `str()` of a list or dict passed to `extract_price`.
- `datetime.strptime` is a parameter mapping a token and a format to a time of day.
- Today's date is a parameter of `is_valid_date_range`. Dates are day numbers.
- Printing and logging are left out. The two-second sleep is a recorded event.
- The agent's last message is modelled as text. Content that is not a string is not modelled.
- JSON object key order is not modelled, because objects are maps.
- Floats are modelled as exact reals. Rounding is not modelled.
- Prices.PriceOf and Prices.FalsyAndNumbers: float overflow is not modelled. `float()` of an integer of 2^1024 or more raises OverflowError. That call sits outside the `try`, so `extract_price` raises and the flight list is shown unsorted. The model gives the exact integer instead. Likewise, a captured digit run longer than about 309 digits gives `inf` in Python, but the model gives its exact decimal value.
- A price read from a text can be an infinity or NaN, and the model has values for those. A JSON number cannot: `json.loads` turns `NaN`, `Infinity`, `-Infinity` and overflowing literals such as `1e400` into float infinities and NaN, but a JSON number in this model is a finite real. So an infinite or NaN price coming straight from the agent's JSON is not modelled. Prices that reach the flight sort as text are.
- `float()` of a cleaned price text without digits recognises the special values `inf`, `infinity` and `nan`, signed. Other float literals without digits do not exist.
- `\d` and `\w` are ASCII only; Python also matches other Unicode digits and letters. `\s` and `strip` use Python's whitespace set.
- `str.lower`/`str.upper` are modelled on ASCII. The words they are compared with are ASCII.
- The premium and business price estimates (×1.4, ×2.5, ×1.8) are float work and are not modelled. The same holds for the texts of the non-current columns.
- Each layover detail line is left out, and so is its failure on a malformed entry. Only the stops label is modelled.
- The HTML and Streamlit rendering of the cards is left out. A card records the values it shows.
- Flights.Sort: with NaN prices, Python's sort gives an order that depends on its algorithm. The model's order is a stable insertion order, so only the permutation and stability are stated for that case.
