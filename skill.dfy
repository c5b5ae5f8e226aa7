/** The Quick Maths skill: which request each handler accepts, the four
    arithmetic operations, and the responses the handlers build. The voice
    platform's SDK (its response builder and dispatcher) is not part of this
    model; a response is the record of what a handler hands to the builder. */
module Skill {
  import Lib
  import Decimal

  datatype Option<T> = None | Some(value: T)

  // ---------------------------------------------------------------------------
  // Fixed texts
  // ---------------------------------------------------------------------------

  const SkillName: string := "Quick Maths"
  const HelpMessage: string := "You can say do some quick maths, or, you can say exit... What can I help you with?"
  const HelpReprompt: string := "What can I help you with?"
  const FallbackReprompt: string := HelpReprompt
  const FallbackSentences: seq<string> := [
    "The Quick Maths skill can't help you with that.",
    "It can perform quick maths if you say do some quick maths.",
    FallbackReprompt
  ]
  const FallbackMessage: string := Join(FallbackSentences, " ")
  const StopText: string := "The ting goes ta ta!"

  /** `Array.prototype.join`: the parts with `separator` between neighbours.
      The text starts with the first part and ends with the last. */
  function Join(parts: seq<string>, separator: string): (s: string)
    ensures |parts| > 0 ==>
      && |parts[0]| <= |s| && s[..|parts[0]|] == parts[0]
      && |parts[|parts| - 1]| <= |s| && s[|s| - |parts[|parts| - 1]|..] == parts[|parts| - 1]
  {
    if |parts| == 0 then ""
    else if |parts| == 1 then parts[0]
    else
      var tail := Join(parts[1..], separator);
      var s := parts[0] + separator + tail;
      assert parts[1..][|parts[1..]| - 1] == parts[|parts| - 1];
      assert s[|s| - |parts[|parts| - 1]|..] == tail[|tail| - |parts[|parts| - 1]|..];
      assert s[..|parts[0]|] == parts[0];
      s
  }

  /** The fallback message is its three sentences joined by single spaces,
      and it ends by asking the help reprompt's question. */
  lemma FallbackMessageText()
    ensures FallbackMessage == FallbackSentences[0] + " " + (FallbackSentences[1] + " " + HelpReprompt)
    ensures |HelpReprompt| <= |FallbackMessage|
    ensures FallbackMessage[|FallbackMessage| - |HelpReprompt|..] == HelpReprompt
  {
    JoinThree(FallbackSentences[0], FallbackSentences[1], HelpReprompt, " ");
    assert FallbackSentences == [FallbackSentences[0], FallbackSentences[1], HelpReprompt];
  }

  /** Three parts are joined with the separator between the first and second
      and between the second and third. */
  lemma JoinThree(a: string, b: string, c: string, separator: string)
    ensures Join([a, b, c], separator) == a + separator + (b + separator + c)
  {
    var p3 := [a, b, c];
    var p2 := [b, c];
    assert p3[1..] == p2;
    assert p2[1..] == [c];
    assert Join([c], separator) == c;
    assert Join(p2, separator) == b + separator + c;
    assert Join(p3, separator) == a + separator + Join(p2, separator);
  }

  /** The goodbye spoken by the exit handler: the stop text passed through the
      speechcon wrapper once, with the speechcon list of the process. */
  function StopMessage(speechcons: seq<string>): (m: string)
    requires Lib.NoReplacementPatterns(speechcons)
    ensures |StopText| <= |m| <= |StopText| + Lib.MarkupOverhead * |speechcons|
    ensures (forall w <- speechcons :: !Lib.Contains(StopText, w)) ==> m == StopText
  {
    Lib.WrapAllNoneOccur(speechcons, StopText);
    Lib.WrapAll(speechcons, StopText)
  }

  // ---------------------------------------------------------------------------
  // Requests and matchers
  // ---------------------------------------------------------------------------

  /** The two fields of the request envelope the skill reads. The intent name
      is only looked at when the request type is "IntentRequest". */
  datatype Request = Request(requestType: string, intentName: string)

  /** The predicates built by `matchRequestType(type)` and `matchIntent(...names)`. */
  datatype Matcher =
    | RequestTypeIs(requestType: string)
    | IntentIs(names: seq<string>)

  function Matches(m: Matcher, req: Request): (b: bool)
    ensures m.RequestTypeIs? ==> (b <==> req.requestType == m.requestType)
    ensures m.IntentIs? ==>
      (b <==> req.requestType == "IntentRequest" && exists n <- m.names :: n == req.intentName)
  {
    match m
    case RequestTypeIs(t) => req.requestType == t
    case IntentIs(names) => req.requestType == "IntentRequest" && req.intentName in names
  }

  /** `matchIntent(a, b, ...)` accepts exactly what one of `matchIntent(a)`,
      `matchIntent(b)`, ... accepts, and only intent requests. */
  lemma MatchIntentIsUnion(names: seq<string>, req: Request)
    ensures Matches(IntentIs(names), req) ==> Matches(RequestTypeIs("IntentRequest"), req)
    ensures Matches(IntentIs(names), req) <==> exists n <- names :: Matches(IntentIs([n]), req)
  {
  }

  /** `Array.prototype.some` over a list of matchers. */
  function AnyMatches(matchers: seq<Matcher>, req: Request): (b: bool)
    ensures b <==> exists m <- matchers :: Matches(m, req)
  {
    if matchers == [] then false
    else Matches(matchers[0], req) || AnyMatches(matchers[1..], req)
  }

  // ---------------------------------------------------------------------------
  // Handlers and dispatch
  // ---------------------------------------------------------------------------

  datatype Handler =
    | GetQuickMathsHandler
    | HelpHandler
    | ExitHandler
    | FallbackHandler
    | SessionEndedRequestHandler

  /** The handlers in the order they are registered with the skill builder. */
  const RequestHandlers: seq<Handler> :=
    [GetQuickMathsHandler, HelpHandler, ExitHandler, FallbackHandler, SessionEndedRequestHandler]

  /** Each handler's `canHandle`, stated in terms of the request's fields. */
  function CanHandle(h: Handler, req: Request): (b: bool)
    ensures b <==> match h
      case GetQuickMathsHandler =>
        req.requestType == "LaunchRequest"
        || (req.requestType == "IntentRequest" && req.intentName == "GetQuickMathsIntent")
      case HelpHandler =>
        req.requestType == "IntentRequest" && req.intentName == "AMAZON.HelpIntent"
      case ExitHandler =>
        req.requestType == "IntentRequest"
        && (req.intentName == "AMAZON.CancelIntent" || req.intentName == "AMAZON.StopIntent")
      case FallbackHandler =>
        req.requestType == "IntentRequest" && req.intentName == "AMAZON.FallbackIntent"
      case SessionEndedRequestHandler =>
        req.requestType == "SessionEndedRequest"
  {
    match h
    case GetQuickMathsHandler =>
      var matchers := [RequestTypeIs("LaunchRequest"), IntentIs(["GetQuickMathsIntent"])];
      assert AnyMatches(matchers, req) <==> Matches(matchers[0], req) || Matches(matchers[1], req) by {
        assert matchers[1..] == [matchers[1]] && matchers[1..][1..] == [];
      }
      AnyMatches(matchers, req)
    case HelpHandler => Matches(IntentIs(["AMAZON.HelpIntent"]), req)
    case ExitHandler => Matches(IntentIs(["AMAZON.CancelIntent", "AMAZON.StopIntent"]), req)
    case FallbackHandler => Matches(IntentIs(["AMAZON.FallbackIntent"]), req)
    case SessionEndedRequestHandler => Matches(RequestTypeIs("SessionEndedRequest"), req)
  }

  /** No request is accepted by two different handlers. */
  lemma CanHandleDisjoint(h1: Handler, h2: Handler, req: Request)
    requires h1 != h2 && CanHandle(h1, req)
    ensures !CanHandle(h2, req)
  {
  }

  /** The first handler in `handlers` that accepts the request, as the
      dispatcher picks it. */
  function FirstMatch(handlers: seq<Handler>, req: Request): (r: Option<Handler>)
    ensures r.Some? ==> r.value in handlers && CanHandle(r.value, req)
    ensures r.None? <==> forall h <- handlers :: !CanHandle(h, req)
  {
    if handlers == [] then None
    else if CanHandle(handlers[0], req) then Some(handlers[0])
    else FirstMatch(handlers[1..], req)
  }

  /** Because the handlers are disjoint, the registration order does not
      matter: for any list of handlers, the dispatcher picks a handler exactly
      when that handler is in the list and accepts the request. */
  lemma DispatchPicksTheAcceptingHandler(handlers: seq<Handler>, req: Request, h: Handler)
    ensures FirstMatch(handlers, req) == Some(h) <==> h in handlers && CanHandle(h, req)
  {
    var r := FirstMatch(handlers, req);
    if h in handlers && CanHandle(h, req) && r.Some? && r.value != h {
      CanHandleDisjoint(r.value, h, req);
    }
  }

  // ---------------------------------------------------------------------------
  // Operations and random numbers
  // ---------------------------------------------------------------------------

  datatype Operation = Plus | Minus | Times | DividedBy

  /** The keys of the `operations` object, in the order they are written. */
  const OperationNames: seq<string> := ["plus", "minus", "times", "divided by"]

  /** The `operations` object as `getRandomItem` sees it. */
  const Operations: Lib.Input<Operation> := Lib.Record(
    OperationNames,
    map["plus" := Plus, "minus" := Minus, "times" := Times, "divided by" := DividedBy])

  /** The table is a well-formed object whose four keys name four different
      operations, and the key "divided by" names division and no other. */
  lemma OperationsTable()
    ensures Lib.ValidRecord(Operations.keys, Operations.fields)
    ensures |Operations.keys| == 4
    ensures forall k1, k2 ::
      k1 in Operations.fields && k2 in Operations.fields && k1 != k2 ==> Operations.fields[k1] != Operations.fields[k2]
    ensures forall k :: k in Operations.fields ==> (k == "divided by" <==> Operations.fields[k] == DividedBy)
  {
    var keys, fields := Operations.keys, Operations.fields;
    assert fields.Keys == {"plus", "minus", "times", "divided by"};
    assert forall k :: k in fields <==> k in keys;
    assert keys[0] != keys[1] && keys[0] != keys[2] && keys[0] != keys[3];
    assert keys[1] != keys[2] && keys[1] != keys[3] && keys[2] != keys[3];
  }

  /** The numbers the handler draws lie in [1, 1000]. */
  predicate InDrawRange(n: int)
  {
    1 <= n <= 1000
  }

  /** `randomNumber(min, max)` with the `Math.random()` draw `u`. */
  function RandomNumber(min: int, max: int, u: real): (r: int)
    requires min <= max && 0.0 <= u < 1.0
    ensures min <= r <= max
  {
    Lib.RandomIndex(u, max - min + 1) + min
  }

  /** Every integer in [min, max] is drawn by some `u`. */
  lemma RandomNumberReachesEvery(min: int, max: int, n: int) returns (u: real)
    requires min <= n <= max
    ensures 0.0 <= u < 1.0 && RandomNumber(min, max, u) == n
  {
    u := (n - min) as real / (max - min + 1) as real;
    Lib.RandomIndexReachesEvery(max - min + 1, n - min);
  }

  /** `Math.round(x / y)`: the quotient rounded to the nearest integer, halves
      rounded up. */
  function RoundedQuotient(x: int, y: int): (r: int)
    requires InDrawRange(x) && InDrawRange(y)
    ensures 2 * y * r - y <= 2 * x < 2 * y * r + y
    ensures 0 <= r <= 1000
  {
    var r := (2 * x + y) / (2 * y);
    DivisionBounds(2 * x + y, 2 * y, r);
    r
  }

  lemma DivisionBounds(a: int, b: int, q: int)
    requires 0 < b && q == a / b
    ensures b * q <= a < b * q + b
  {
  }

  /** The integer formula agrees with rounding the exact quotient: `Math.round`
      of a number `v` is the floor of `v + 1/2`. */
  lemma RoundedQuotientIsRound(x: int, y: int)
    requires InDrawRange(x) && InDrawRange(y)
    ensures RoundedQuotient(x, y) == (x as real / y as real + 0.5).Floor
  {
    var r := RoundedQuotient(x, y);
    var v := x as real / y as real + 0.5;
    var d := 2 * x + y - 2 * y * r;
    assert 0 <= d < 2 * y;
    ScaledDifference(x, y, r, v);
    FractionInUnit(v - r as real, (2 * y) as real, d as real);
    assert r as real <= v < r as real + 1.0;
  }

  lemma ScaledDifference(x: int, y: int, r: int, v: real)
    requires 0 < y && v == x as real / y as real + 0.5
    ensures (v - r as real) * (2 * y) as real == (2 * x + y - 2 * y * r) as real
  {
  }

  lemma FractionInUnit(f: real, b: real, d: real)
    requires 0.0 < b && f * b == d && 0.0 <= d < b
    ensures 0.0 <= f < 1.0
  {
  }

  lemma ProductInRange(x: int, y: int)
    requires InDrawRange(x) && InDrawRange(y)
    ensures 1 <= x * y <= 1000000
  {
    assert (1000 - x) * y >= 0 by {
      NonNegativeProduct(1000 - x, y);
    }
    NonNegativeProduct(x - 1, y - 1);
  }

  lemma NonNegativeProduct(a: int, b: int)
    requires 0 <= a && 0 <= b
    ensures 0 <= a * b
  {
  }

  /** The entries of the `operations` object. */
  function Apply(op: Operation, x: int, y: int): (r: int)
    requires InDrawRange(x) && InDrawRange(y)
    ensures op == Plus ==> 2 <= r <= 2000 && r - y == x
    ensures op == Minus ==> -999 <= r <= 999 && r + y == x
    ensures op == Times ==> 1 <= r <= 1000000 && r == x * y
    ensures op == DividedBy ==> 0 <= r <= 1000 && 2 * y * r - y <= 2 * x < 2 * y * r + y
  {
    match op
    case Plus => x + y
    case Minus => x - y
    case Times => ProductInRange(x, y); x * y
    case DividedBy => RoundedQuotient(x, y)
  }

  // ---------------------------------------------------------------------------
  // The spoken sentence and the responses
  // ---------------------------------------------------------------------------

  const Approximately: string := "approximately "
  const Closing: string := ". Quick maths!"

  /** The part of the sentence before the (approximate) result. */
  function Lead(x: int, y: int, operationName: string): string
  {
    "Here goes: " + Decimal.IntToString(x) + " " + operationName + " "
      + Decimal.IntToString(y) + " is "
  }

  /** The sentence the quick-maths handler speaks for the operation that the
      random pick returned as the entry `{ [operationName]: operation }`. It
      opens with the lead and closes with ". Quick maths!"; "approximately "
      follows the lead exactly for the name "divided by"; and what lies
      between is the rendered result. */
  function SpeechOutput(x: int, y: int, operationName: string, operation: Operation): (s: string)
    requires InDrawRange(x) && InDrawRange(y)
    ensures var lead := Lead(x, y, operationName);
      var approx := operationName == "divided by";
      var start := |lead| + (if approx then |Approximately| else 0);
      && |lead| + |Approximately| <= |s| && start <= |s| - |Closing|
      && s[..|lead|] == lead
      && s[|s| - |Closing|..] == Closing
      && (s[|lead|..|lead| + |Approximately|] == Approximately <==> approx)
      && s[start..|s| - |Closing|] == Decimal.IntToString(Apply(operation, x, y))
  {
    var approx := if operationName == "divided by" then Approximately else "";
    var result := Decimal.IntToString(Apply(operation, x, y));
    SentenceParts(Lead(x, y, operationName), operationName == "divided by", result);
    Lead(x, y, operationName) + approx + result + Closing
  }

  /** For an entry of the table, "approximately " is spoken exactly when the
      operation is division, and the result spoken is the operation's. */
  lemma SpeechTemplate(x: int, y: int, operationName: string)
    requires InDrawRange(x) && InDrawRange(y) && operationName in Operations.fields
    ensures var op := Operations.fields[operationName];
      var s := SpeechOutput(x, y, operationName, op);
      var lead := Lead(x, y, operationName);
      var start := |lead| + (if op == DividedBy then |Approximately| else 0);
      && |lead| + |Approximately| <= |s| && start <= |s| - |Closing|
      && (s[|lead|..|lead| + |Approximately|] == Approximately <==> op == DividedBy)
      && s[start..|s| - |Closing|] == Decimal.IntToString(Apply(op, x, y))
  {
    OperationsTable();
  }

  /** A rendered number never starts like "approximately ", so the word can be
      recognised right after the lead; the pieces of the sentence sit where
      they were put. */
  lemma SentenceParts(lead: string, approx: bool, result: string)
    requires |result| > 0 && (result[0] == '-' || Decimal.IsDigit(result[0]))
    ensures var s := lead + (if approx then Approximately else "") + result + Closing;
      var start := |lead| + (if approx then |Approximately| else 0);
      && |lead| + |Approximately| <= |s| && start <= |s| - |Closing|
      && s[..|lead|] == lead
      && s[|s| - |Closing|..] == Closing
      && (s[|lead|..|lead| + |Approximately|] == Approximately <==> approx)
      && s[start..|s| - |Closing|] == result
  {
    var s := lead + (if approx then Approximately else "") + result + Closing;
    if approx {
      assert s == lead + (Approximately + (result + Closing));
      assert s[|lead|..|lead| + |Approximately|] == Approximately;
    } else {
      assert s == lead + (result + Closing);
      assert s[|lead|] == result[0];
      assert s[|lead|..|lead| + |Approximately|][0] != Approximately[0];
    }
  }

  datatype Card = SimpleCard(title: string, content: string)

  /** What a handler asks the response builder for: the speech, the reprompt
      (its absence lets the session end) and a card. */
  datatype Response = Response(speech: Option<string>, reprompt: Option<string>, card: Option<Card>)

  /** The three `Math.random()` draws the quick-maths handler makes, for `x`,
      for `y` and for the operation. */
  datatype Draws = Draws(x: real, y: real, operation: real)

  predicate ValidDraws(d: Draws)
  {
    0.0 <= d.x < 1.0 && 0.0 <= d.y < 1.0 && 0.0 <= d.operation < 1.0
  }

  /** Each handler's `handle`. */
  function Handle(h: Handler, speechcons: seq<string>, draws: Draws): (r: Response)
    requires ValidDraws(draws) && Lib.NoReplacementPatterns(speechcons)
    ensures r.card.Some? <==> h == GetQuickMathsHandler
    ensures r.card.Some? ==> r.card.value.title == SkillName && r.speech == Some(r.card.value.content)
    ensures r.reprompt.Some? <==> h == HelpHandler || h == FallbackHandler
    ensures r.speech.None? <==> h == SessionEndedRequestHandler
    ensures h == HelpHandler ==> r.speech == Some(HelpMessage) && r.reprompt == Some(HelpReprompt)
    ensures h == FallbackHandler ==> r.speech == Some(FallbackMessage) && r.reprompt == Some(HelpReprompt)
    ensures h == ExitHandler ==> r.speech == Some(StopMessage(speechcons))
  {
    match h
    case GetQuickMathsHandler =>
      var x := RandomNumber(1, 1000, draws.x);
      var y := RandomNumber(1, 1000, draws.y);
      OperationsTable();
      var entry := Lib.GetRandomItem(Operations, draws.operation);
      var speech := SpeechOutput(x, y, entry.key, entry.value);
      Response(Some(speech), None, Some(SimpleCard(SkillName, speech)))
    case HelpHandler =>
      Response(Some(HelpMessage), Some(HelpReprompt), None)
    case FallbackHandler =>
      Response(Some(FallbackMessage), Some(FallbackReprompt), None)
    case ExitHandler =>
      Response(Some(StopMessage(speechcons)), None, None)
    case SessionEndedRequestHandler =>
      Response(None, None, None)
  }

  /** The quick-maths answer for `x`, `y` and the operation named `name`. */
  function QuickMathsSpeech(x: int, y: int, name: string): string
    requires InDrawRange(x) && InDrawRange(y) && name in Operations.fields
  {
    SpeechOutput(x, y, name, Operations.fields[name])
  }

  /** The quick-maths handler speaks the sentence for the two drawn numbers
      and the operation whose key the draw selects in the table's key order. */
  lemma HandleQuickMaths(speechcons: seq<string>, d: Draws)
    requires ValidDraws(d) && Lib.NoReplacementPatterns(speechcons)
    ensures var name := OperationNames[Lib.RandomIndex(d.operation, 4)];
      && name in Operations.fields
      && Handle(GetQuickMathsHandler, speechcons, d).speech
         == Some(QuickMathsSpeech(RandomNumber(1, 1000, d.x), RandomNumber(1, 1000, d.y), name))
  {
  }

  /** Every combination of two numbers in [1, 1000] and an operation is
      spoken for some draws, and what is spoken is the sentence for them. */
  lemma HandleReachesEvery(speechcons: seq<string>, x: int, y: int, name: string) returns (d: Draws)
    requires Lib.NoReplacementPatterns(speechcons)
    requires InDrawRange(x) && InDrawRange(y) && name in Operations.fields
    ensures ValidDraws(d)
    ensures Handle(GetQuickMathsHandler, speechcons, d).speech == Some(QuickMathsSpeech(x, y, name))
  {
    var ux := RandomNumberReachesEvery(1, 1000, x);
    var uy := RandomNumberReachesEvery(1, 1000, y);
    OperationsTable();
    var uo := Lib.GetRandomItemPicksEveryKey(Operations.keys, Operations.fields, name);
    d := Draws(ux, uy, uo);
  }
}
