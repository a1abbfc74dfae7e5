/**
 * Getting a JSON value out of the model's final message once the retry
 * loop has given up: a direct parse, a parse of the repaired text, and,
 * when the message holds a ``` marker, a fenced block found by a regular
 * expression, the text between the first two markers, or the text from the
 * first `{` to the last `}` -- each tried as is and then repaired.
 *
 * `json.loads` is an oracle: it yields a value or the message of the
 * JSONDecodeError it raises.
 */
module Extraction {
  import opened Wrappers
  import opened Text
  import opened JsonValue
  import FixJson

  /** `json.loads`: a value, or `str()` of the JSONDecodeError it raises. */
  type Parser = string -> Result<Json, string>

  const Fence: string := "```"

  /** The ValueError message when no candidate text can be found at all. */
  const NoJsonMessage: string := "Could not extract JSON from content"

  // ---------------------------------------------------------------------
  // re.search(r'```(?:json)?\n(.+?)\n```', content, re.DOTALL)
  // ---------------------------------------------------------------------

  /**
   * Where the captured group starts when the opening part of the pattern,
   * ```` ```(?:json)?\n ````, matches at `i`. The two alternatives exclude
   * each other (`j` is not a newline), so no backtracking between them can
   * change the outcome.
   */
  function GroupStart(s: string, i: nat): (g: Option<nat>)
    ensures g.Some? ==> OccursAt(s, Fence, i)
    ensures g.Some? <==> OccursAt(s, "```json\n", i) || OccursAt(s, "```\n", i)
    ensures g.Some? ==> g.value == (if OccursAt(s, "```json\n", i) then i + 8 else i + 4)
    ensures g.Some? ==> g.value <= |s| && s[g.value - 1] == '\n'
  {
    if OccursAt(s, "```json\n", i) then
      assert s[i..i + 3] == s[i..i + 8][..3];
      assert s[i + 7] == s[i..i + 8][7];
      Some(i + 8)
    else if OccursAt(s, "```\n", i) then
      assert s[i..i + 3] == s[i..i + 4][..3];
      assert s[i + 3] == s[i..i + 4][3];
      Some(i + 4)
    else None
  }

  /**
   * The match of the fenced-block pattern starting at `i`, as the bounds of
   * its group: the lazy `(.+?)` takes at least one character and stops at
   * the first `\n```` after that.
   */
  function FenceMatchAt(s: string, i: nat): (m: Option<(nat, nat)>)
    ensures m.Some? ==> GroupStart(s, i) == Some(m.value.0)
    ensures m.Some? ==> m.value.0 < m.value.1 && OccursAt(s, "\n```", m.value.1)
    ensures m.Some? ==> forall k :: m.value.0 < k < m.value.1 ==> !OccursAt(s, "\n```", k)
    ensures m.None? ==> GroupStart(s, i).None? || forall k :: GroupStart(s, i).value < k ==> !OccursAt(s, "\n```", k)
  {
    match GroupStart(s, i)
    case None => None
    case Some(g) =>
      match Find(s, "\n```", g + 1)
      case None => None
      case Some(e) => Some((g, e))
  }

  /** The leftmost start at or after `i` where the fenced-block pattern matches. */
  function FirstFence(s: string, i: nat): (r: Option<nat>)
    requires i <= |s|
    ensures r.Some? ==> i <= r.value <= |s| && FenceMatchAt(s, r.value).Some?
    ensures r.Some? ==> forall k :: i <= k < r.value ==> FenceMatchAt(s, k).None?
    ensures r.None? ==> forall k :: i <= k ==> FenceMatchAt(s, k).None?
    decreases |s| - i
  {
    if FenceMatchAt(s, i).Some? then Some(i)
    else if i == |s| then
      NoFenceMatchPastEnd(s);
      None
    else FirstFence(s, i + 1)
  }

  lemma NoFenceMatchPastEnd(s: string)
    ensures forall k :: |s| < k ==> FenceMatchAt(s, k).None?
  {
    forall k | |s| < k ensures FenceMatchAt(s, k).None? {
      assert !OccursAt(s, "```json\n", k) && !OccursAt(s, "```\n", k);
    }
  }

  /** The group the fenced-block search captures, if it matches anywhere. */
  function FencedBlock(s: string): (r: Option<string>)
    ensures r.Some? <==> exists k :: FenceMatchAt(s, k).Some?
  {
    match FirstFence(s, 0)
    case None => None
    case Some(k) =>
      var m := FenceMatchAt(s, k).value;
      Some(s[m.0..m.1])
  }

  // ---------------------------------------------------------------------
  // content.split('```')
  // ---------------------------------------------------------------------

  /** Python's `s[from:].split(sep)` for a non-empty separator. */
  function Split(s: string, sep: string, from: nat): (parts: seq<string>)
    requires sep != [] && from <= |s|
    ensures |parts| >= 1
    decreases |s| - from
  {
    match Find(s, sep, from)
    case None => [s[from..]]
    case Some(k) => [s[from..k]] + Split(s, sep, k + |sep|)
  }

  /** Python's `sep.join(parts)`. */
  function Join(parts: seq<string>, sep: string): string
    requires |parts| >= 1
  {
    if |parts| == 1 then parts[0] else parts[0] + sep + Join(parts[1..], sep)
  }

  /** Joining the pieces with the separator gives back the text. */
  lemma {:induction false} SplitJoin(s: string, sep: string, from: nat)
    requires sep != [] && from <= |s|
    ensures Join(Split(s, sep, from), sep) == s[from..]
    decreases |s| - from
  {
    match Find(s, sep, from)
    case None =>
    case Some(k) =>
      var rest := Split(s, sep, k + |sep|);
      SplitJoin(s, sep, k + |sep|);
      JoinCons(s[from..k], rest, sep);
      SliceAround(s, from, k, sep);
  }

  lemma JoinCons(a: string, rest: seq<string>, sep: string)
    requires |rest| >= 1
    ensures Join([a] + rest, sep) == a + sep + Join(rest, sep)
  {
    assert ([a] + rest)[1..] == rest;
  }

  lemma SliceAround(s: string, from: nat, k: nat, sep: string)
    requires from <= k && OccursAt(s, sep, k)
    ensures s[from..] == s[from..k] + sep + s[k + |sep|..]
  {
    assert s[from..] == s[from..k] + s[k..k + |sep|] + s[k + |sep|..];
  }

  /** No piece contains the separator. */
  lemma {:induction false} SplitPiecesFree(s: string, sep: string, from: nat)
    requires sep != [] && from <= |s|
    ensures forall p :: p in Split(s, sep, from) ==> !Contains(p, sep)
    decreases |s| - from
  {
    var parts := Split(s, sep, from);
    match Find(s, sep, from)
    case None =>
      NoOccurrenceInSlice(s, sep, from, |s|);
      assert s[from..|s|] == s[from..];
    case Some(k) =>
      NoOccurrenceInSlice(s, sep, from, k);
      SplitPiecesFree(s, sep, k + |sep|);
      assert parts == [s[from..k]] + Split(s, sep, k + |sep|);
  }

  /** An occurrence inside a slice is an occurrence in the whole text. */
  lemma {:induction false} NoOccurrenceInSlice(s: string, sep: string, from: nat, to: nat)
    requires from <= to <= |s|
    requires forall k :: from <= k && k + |sep| <= to ==> !OccursAt(s, sep, k)
    ensures !Contains(s[from..to], sep)
  {
    ContainsIffOccurs(s[from..to], sep);
    if Contains(s[from..to], sep) {
      var t := s[from..to];
      var j: nat :| OccursAt(t, sep, j);
      assert t[j..j + |sep|] == sep;
      assert |t| == to - from;
      forall i | 0 <= i < |sep| ensures s[from + j + i] == sep[i] {
        assert t[j + i] == t[j..j + |sep|][i];
      }
      assert s[from + j..from + j + |sep|] == sep;
      assert OccursAt(s, sep, from + j);
    }
  }

  /** The text has a marker exactly when splitting on it gives at least two pieces. */
  lemma {:induction false} SplitCountsMarker(s: string, sep: string)
    requires sep != []
    ensures Contains(s, sep) <==> |Split(s, sep, 0)| >= 2
  {
    match Find(s, sep, 0)
    case None =>
    case Some(k) =>
      assert |Split(s, sep, k + |sep|)| >= 1;
  }

  /** The second piece of the split, when there are at least three. */
  function BetweenMarkers(s: string): (r: Option<string>)
    ensures r.Some? <==> |Split(s, Fence, 0)| >= 3
    ensures r.Some? ==> r.value == Split(s, Fence, 0)[1]
  {
    var parts := Split(s, Fence, 0);
    if |parts| >= 3 then Some(parts[1]) else None
  }

  /** `json_str[4:]` when it starts with `json`, then `.strip()`. */
  function DropLanguageTag(t: string): (r: string)
    ensures r != [] ==> !IsSpace(r[0]) && !IsSpace(r[|r| - 1])
    ensures |r| <= |t| && (StartsWith(t, "json") ==> |r| <= |t| - 4)
  {
    Strip(if StartsWith(t, "json") then t[4..] else t)
  }

  /** A block tagged `json` on its own line gives back the text between the line breaks. */
  lemma TaggedBlock(x: string)
    requires x == [] || (!IsSpace(x[0]) && !IsSpace(x[|x| - 1]))
    ensures DropLanguageTag("json\n" + x + "\n") == x
  {
    var t := "json\n" + x + "\n";
    assert StartsWith(t, "json") by { assert t[..4] == "json"; }
    var u := t[4..];
    assert u == "\n" + x + "\n";
    assert SpanSpace(u, 0) == SpanSpace(u, 1);
    if x == [] {
      assert SpanSpace(u, 2) == 2;
    } else {
      assert SpanSpace(u, 1) == 1 by { assert u[1] == x[0]; }
      assert BackSpace(u, |u|) == BackSpace(u, |u| - 1);
      assert BackSpace(u, |u| - 1) == |u| - 1 by { assert u[|u| - 2] == x[|x| - 1]; }
      assert u[1..|u| - 1] == x;
    }
  }

  // ---------------------------------------------------------------------
  // re.search(r'(\{.*\})', content, re.DOTALL)
  // ---------------------------------------------------------------------

  /**
   * The greedy brace pattern: from the first `{` to the last `}`, provided
   * that `}` comes after the `{`.
   */
  function BraceSpan(s: string): (r: Option<string>)
    ensures r.Some? <==> exists p, q :: 0 <= p < q < |s| && s[p] == '{' && s[q] == '}'
    ensures r.Some? ==> |r.value| >= 2 && r.value[0] == '{' && r.value[|r.value| - 1] == '}'
  {
    var first := Find(s, "{", 0);
    var last := LastIndex(s, '}');
    if first.Some? && last.Some? && first.value < last.value then
      assert s[first.value] == s[first.value..first.value + 1][0];
      Some(s[first.value..last.value + 1])
    else
      assert forall p, q :: 0 <= p < q < |s| && s[p] == '{' && s[q] == '}' ==> false by {
        forall p, q | 0 <= p < q < |s| && s[p] == '{' && s[q] == '}' ensures false {
          assert s[p..p + 1] == "{";
          assert OccursAt(s, "{", p);
        }
      }
      None
  }

  // ---------------------------------------------------------------------
  // The cascade
  // ---------------------------------------------------------------------

  /** Parse `t`; if that fails, parse `fix_json(t)` and let its error stand. */
  function ParseOrRepair(parse: Parser, t: string): (r: Result<Json, string>)
    ensures parse(t).Ok? ==> r == parse(t)
    ensures parse(t).Err? ==> r == parse(FixJson.Fix(t))
  {
    match parse(t)
    case Ok(v) => Ok(v)
    case Err(_) => parse(FixJson.Fix(t))
  }

  /**
   * The extraction cascade after a failed retry loop. `Err` carries the
   * message of the exception that escapes it.
   */
  function ExtractJson(parse: Parser, content: string): Result<Json, string> {
    match parse(content)
    case Ok(v) => Ok(v)
    case Err(_) =>
      match parse(FixJson.Fix(content))
      case Ok(v) => Ok(v)
      case Err(e) =>
        if Contains(content, "```json") || Contains(content, Fence) then
          match FencedBlock(content)
          case Some(block) => ParseOrRepair(parse, block)
          case None =>
            match BetweenMarkers(content)
            case Some(piece) => ParseOrRepair(parse, DropLanguageTag(piece))
            case None =>
              match BraceSpan(content)
              case Some(span) => ParseOrRepair(parse, span)
              case None => Err(NoJsonMessage)
        else
          Err(e)
  }

  /** The first half of the marker test is subsumed by the second. */
  lemma MarkerTest(content: string)
    ensures Contains(content, "```json") || Contains(content, Fence) <==> Contains(content, Fence)
  {
    if Contains(content, "```json") {
      var k := Find(content, "```json", 0).value;
      assert content[k..k + 3] == content[k..k + 7][..3];
      assert OccursAt(content, Fence, k);
      ContainsIffOccurs(content, Fence);
    }
  }

  // ---------------------------------------------------------------------
  // Reference: the list of texts the cascade tries
  // ---------------------------------------------------------------------

  datatype Origin = Whole | FencedGroup | BetweenFences | Braces

  /** One text handed to the parser: where it came from and whether it was repaired. */
  datatype Candidate = Candidate(origin: Origin, repaired: bool, text: string)

  /** The candidates in the order they are tried, and whether the cascade gives up after them. */
  datatype Plan = Plan(candidates: seq<Candidate>, giveUp: bool)

  function Both(o: Origin, t: string): seq<Candidate> {
    [Candidate(o, false, t), Candidate(o, true, FixJson.Fix(t))]
  }

  /** What the cascade will try for a given message, stated without nesting. */
  function PlanFor(content: string): Plan {
    var head := Both(Whole, content);
    if !Contains(content, Fence) then Plan(head, false)
    else if FencedBlock(content).Some? then Plan(head + Both(FencedGroup, FencedBlock(content).value), false)
    else if BetweenMarkers(content).Some? then
      Plan(head + Both(BetweenFences, DropLanguageTag(BetweenMarkers(content).value)), false)
    else if BraceSpan(content).Some? then Plan(head + Both(Braces, BraceSpan(content).value), false)
    else Plan(head, true)
  }

  /**
   * Parse the candidates in order and keep the first value; when all fail,
   * the last error stands, or the give-up message.
   */
  function FirstParse(parse: Parser, cs: seq<Candidate>, giveUp: bool): Result<Json, string>
    requires |cs| >= 1
  {
    match parse(cs[0].text)
    case Ok(v) => Ok(v)
    case Err(e) =>
      if |cs| == 1 then (if giveUp then Err(NoJsonMessage) else Err(e))
      else FirstParse(parse, cs[1..], giveUp)
  }

  /** The nested cascade is exactly "first parse that works" over PlanFor. */
  lemma {:induction false} ExtractJsonFollowsPlan(parse: Parser, content: string)
    ensures |PlanFor(content).candidates| >= 2
    ensures ExtractJson(parse, content)
         == FirstParse(parse, PlanFor(content).candidates, PlanFor(content).giveUp)
  {
    MarkerTest(content);
    var p := PlanFor(content);
    if Contains(content, Fence) && p.giveUp {
      FirstParseOfBoth(parse, Whole, content, true);
    } else {
      FirstParseOfBoth(parse, Whole, content, false);
      if Contains(content, Fence) {
        var t := p.candidates[2].text;
        FirstParseOfBothThen(parse, Whole, content, Both(p.candidates[2].origin, t), false);
        FirstParseOfBoth(parse, p.candidates[2].origin, t, false);
      }
    }
  }

  lemma {:induction false} FirstParseOfBoth(parse: Parser, o: Origin, t: string, giveUp: bool)
    ensures FirstParse(parse, Both(o, t), giveUp)
         == if giveUp && ParseOrRepair(parse, t).Err? then Err(NoJsonMessage) else ParseOrRepair(parse, t)
  {
    assert Both(o, t)[1..] == [Candidate(o, true, FixJson.Fix(t))];
  }

  lemma {:induction false} FirstParseOfBothThen(parse: Parser, o: Origin, t: string, rest: seq<Candidate>, giveUp: bool)
    requires |rest| >= 1
    ensures FirstParse(parse, Both(o, t) + rest, giveUp)
         == if ParseOrRepair(parse, t).Ok? then ParseOrRepair(parse, t) else FirstParse(parse, rest, giveUp)
  {
    var cs := Both(o, t) + rest;
    assert cs[0].text == t;
    assert cs[1..][0].text == FixJson.Fix(t);
    assert cs[1..][1..] == rest;
  }

  /** A successful result is the value of some candidate, and every earlier one failed. */
  lemma {:induction false} FirstParseIsFirst(parse: Parser, cs: seq<Candidate>, giveUp: bool)
    requires |cs| >= 1
    ensures FirstParse(parse, cs, giveUp).Ok? <==> exists k :: 0 <= k < |cs| && parse(cs[k].text).Ok?
    ensures FirstParse(parse, cs, giveUp).Ok? ==>
      exists k :: 0 <= k < |cs| && parse(cs[k].text) == FirstParse(parse, cs, giveUp)
        && forall j :: 0 <= j < k ==> parse(cs[j].text).Err?
    ensures FirstParse(parse, cs, giveUp).Err? && !giveUp ==> FirstParse(parse, cs, giveUp) == parse(cs[|cs| - 1].text)
    ensures FirstParse(parse, cs, giveUp).Err? && giveUp ==> FirstParse(parse, cs, giveUp) == Err(NoJsonMessage)
    decreases |cs|
  {
    if parse(cs[0].text).Err? && |cs| > 1 {
      FirstParseIsFirst(parse, cs[1..], giveUp);
      var r := FirstParse(parse, cs, giveUp);
      if r.Ok? {
        var k :| 0 <= k < |cs[1..]| && parse(cs[1..][k].text) == r
          && forall j :: 0 <= j < k ==> parse(cs[1..][j].text).Err?;
        assert parse(cs[k + 1].text) == r;
        assert forall j :: 0 <= j < k + 1 ==> parse(cs[j].text).Err? by {
          forall j | 0 <= j < k + 1 ensures parse(cs[j].text).Err? {
            if j > 0 { assert cs[j] == cs[1..][j - 1]; }
          }
        }
      } else {
        forall k | 0 <= k < |cs| ensures parse(cs[k].text).Err? {
          if k > 0 { assert cs[k] == cs[1..][k - 1]; }
        }
      }
    }
  }

  /** Each text is tried as is first and then after `fix_json`, and the origins follow the cascade. */
  lemma {:induction false} PlanPairsRepairs(content: string)
    ensures |PlanFor(content).candidates| in {2, 4}
    ensures PlanFor(content).candidates[..2] == Both(Whole, content)
    ensures |PlanFor(content).candidates| == 4 ==>
      PlanFor(content).candidates[2..] == Both(PlanFor(content).candidates[2].origin, PlanFor(content).candidates[2].text)
      && PlanFor(content).candidates[2].origin != Whole
  {
    var cs := PlanFor(content).candidates;
    if |cs| == 4 {
      assert cs == Both(Whole, content) + cs[2..];
    }
  }

  /** The whole message is always tried first, as is and then repaired. */
  lemma PlanStartsWithWhole(content: string)
    ensures PlanFor(content).candidates[0] == Candidate(Whole, false, content)
    ensures PlanFor(content).candidates[1] == Candidate(Whole, true, FixJson.Fix(content))
  {
  }

  /**
   * Fence-free text gets nothing beyond the two whole-message attempts and
   * ends with the error of the repaired parse.
   */
  lemma {:induction false} FenceFreeReraises(parse: Parser, content: string)
    requires !Contains(content, Fence)
    ensures parse(content).Err? && parse(FixJson.Fix(content)).Err? ==>
      ExtractJson(parse, content) == parse(FixJson.Fix(content))
    ensures |PlanFor(content).candidates| == 2 && !PlanFor(content).giveUp
  {
    MarkerTest(content);
  }

  /** The brace scan is reached only when the text holds exactly one marker. */
  lemma {:induction false} BraceScanNeedsOneMarker(content: string)
    requires exists k :: 0 <= k < |PlanFor(content).candidates| && PlanFor(content).candidates[k].origin == Braces
    ensures |Split(content, Fence, 0)| == 2
  {
    SplitCountsMarker(content, Fence);
  }

  /** With two or more markers the cascade never gives up without a third candidate. */
  lemma {:induction false} TwoMarkersGiveCandidate(content: string)
    requires |Split(content, Fence, 0)| >= 3
    ensures |PlanFor(content).candidates| == 4 && !PlanFor(content).giveUp
    ensures PlanFor(content).candidates[2].origin in {FencedGroup, BetweenFences}
  {
    SplitCountsMarker(content, Fence);
  }

  /** The give-up message appears only with exactly one marker and no `{ … }` span. */
  lemma {:induction false} GiveUpOnlyWithoutBraces(content: string)
    ensures PlanFor(content).giveUp <==>
      |Split(content, Fence, 0)| == 2 && FencedBlock(content).None? && BraceSpan(content).None?
  {
    SplitCountsMarker(content, Fence);
  }
}
