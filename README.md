# Quick Maths skill, modelled in Dafny

Quick Maths is a voice-assistant skill. On a launch request, or on the
"GetQuickMathsIntent" intent, it draws two integers in [1, 1000]. It then picks
one of four operations ("plus", "minus", "times", "divided by") and speaks a
sentence such as "Here goes: 7 divided by 2 is approximately 4. Quick maths!".
Four other handlers cover help, fallback, stop/cancel and session end. A helper
library supplies two functions. `getRandomItem` picks an element of an array,
or a one-entry object out of an object. `wrapSpeechconsInSSML` wraps known
interjection words ("speechcons") in SSML `say-as` markup.

The model has three modules:

- `Lib` (lib.dfy) models lib.js.
  - `GetRandomItem` is a function over a datatype with one constructor per
    input shape: array, object (keys in `Object.keys` order plus a key-to-value
    map), or anything else. An object is handled by a recursive call on the
    array of its keys, as in the source.
  - `WrapSpeechconsInSSML` is a method whose loop updates the text. It is
    proved equal to `WrapAll`, a fold of `ReplaceFirst` over the word list.
    The speechcon list is a parameter.
- `Decimal` (decimal.dfy) models how a template string renders an
  integer-valued number, and proves that the rendering can be read back.
- `Skill` (skill.dfy) models index.js: the request matchers, each handler's
  `canHandle`, the first-match dispatch over the registered handlers, the
  `operations` table, `randomNumber`, the spoken sentence, and what each
  handler passes to the response builder.

Randomness is a parameter. Each `Math.random()` draw is a real `u` with
`0 <= u < 1`. `Math.floor(u * n)` is `Lib.RandomIndex`, and both
`getRandomItem` and `randomNumber` use it. For every index there is a draw that
reaches it.

The wrapper puts a comma before and after the markup (lib.js:32); see
`Lib.WrapExample`.

## Model

| member | source | states |
|---|---|---|
| `Lib.RandomIndex` | lib.js:16 | `Math.floor(u * n)` for a draw `u` in [0, 1) is an index in [0, n) |
| `Lib.RandomIndexReachesEvery` | lib.js:16 | every index k < n is produced by some draw (k / n), so no element is unreachable |
| `Lib.GetRandomItem` | lib.js:14-26 | array: the element at the drawn index; object: the one-entry object for the drawn key, holding the input's value for that key (proved through the recursive call on the key array); anything else: the input unchanged |
| `Lib.GetRandomItemInArray` | lib.js:15-18 | an array pick is a member of the array |
| `Lib.GetRandomItemPicksEvery` | lib.js:15-18 | every element of a non-empty array is returned for some draw |
| `Lib.GetRandomItemInRecord` | lib.js:20-23 | an object pick is a one-entry object whose key is a key of the input and whose value is the input's value for it |
| `Lib.GetRandomItemPicksEveryKey` | lib.js:20-23 | every key of an object, with its value, is returned for some draw |
| `Lib.IndexFrom` | lib.js:33 | the search `replace` does: the leftmost occurrence at or after a position, or -1 exactly when there is none |
| `Lib.IndexOf` | lib.js:33 | -1 exactly when the word does not occur; otherwise the leftmost occurrence |
| `Lib.ReplaceFirst` | lib.js:33 | a text without the word is returned unchanged; otherwise only the leftmost occurrence is replaced, with the text before and after it kept verbatim; the length changes by the replacement's length minus the word's |
| `Lib.Markup` | lib.js:32 | the replacement is the word inside the interjection `say-as` markup, 47 characters longer, with a comma first and last |
| `Lib.MarkupContainsWord` | lib.js:32 | the markup for a word contains that word |
| `Lib.WrapOne` | lib.js:32-33 | one loop step: a text without the word is kept; otherwise the leftmost occurrence becomes the word's markup, the text grows by the 47-character overhead, and the word still occurs (inside its markup) |
| `Lib.WrapAll` | lib.js:29-34 | the fold of the loop steps over the word list: the text never shrinks and grows by at most one markup overhead per word |
| `Lib.WrapSpeechconsInSSML` | lib.js:28-37 | the loop returns `WrapAll` of the word list: each word, in list order, wraps its first occurrence in the text as rewritten so far |
| `Lib.WrapAllAppend` | lib.js:29-34 | wrapping with `a + b` is wrapping with `b` the output of `a`: each word is searched for in the already rewritten text |
| `Lib.WrapAllFromFrontAgrees` | lib.js:29-34 | the front-to-back reduce that threads the text through the list equals the fold the loop is proved against |
| `Lib.WrapAllNoneOccur` | lib.js:29-36 | when none of the words occurs in the input, the output is the input |
| `Lib.WrapAllLength` | lib.js:31-34 | the output is the input plus the markup overhead n times, for some n no larger than the number of words (at most one substitution per word) |
| `Lib.WrapTwiceWrapsAgain` | lib.js:31-34 | the wrapper is not idempotent: a word that was wrapped is wrapped again by a second pass, because its markup still holds it |
| `Lib.WrapOneAtStart` | lib.js:32-33 | a word at the start of the text becomes its markup and the rest of the text follows unchanged |
| `Lib.WrapExample` | lib.js:28-37 | the list ["yo"] turns "yo, what's good" into the markup for "yo" followed by ", what's good" |
| `Decimal.NatToString` | index.js:80 | a non-negative number renders as a non-empty string of digits without leading zeros |
| `Decimal.IntToString` | index.js:80 | an integer renders with a leading `-` exactly when it is negative, and starts with a sign or a digit |
| `Decimal.ParseNatToString` | index.js:80 | reading the digits back gives the number |
| `Decimal.ParseIntToString` | index.js:80 | reading a rendered integer back gives the integer |
| `Decimal.IntToStringInjective` | index.js:80 | different numbers are spoken differently |
| `Skill.Join` | index.js:15-19 | `Array.prototype.join` output begins with the first part and ends with the last |
| `Skill.FallbackMessageText` | index.js:14-19 | the fallback message is its three sentences joined by single spaces and ends with the help reprompt |
| `Skill.StopMessage` | index.js:20 | the goodbye is the stop text grown by at most one markup overhead per speechcon, and is the stop text itself when no speechcon occurs in it |
| `Skill.Matches` | index.js:32-39 | `matchRequestType(t)` holds exactly when the request type is t; `matchIntent(names...)` holds exactly for an intent request whose intent name is one of the names |
| `Skill.MatchIntentIsUnion` | index.js:38-39 | `matchIntent(names...)` accepts only intent requests, and exactly those whose intent name is one of the names |
| `Skill.AnyMatches` | index.js:71-74 | `Array.prototype.some` over the matchers holds exactly when one of them matches |
| `Skill.CanHandle` | index.js:70-122 | each handler's `canHandle` in terms of the request type and intent name; quick maths: a launch request or the GetQuickMathsIntent intent |
| `Skill.CanHandleDisjoint` | index.js:70-122 | no request is accepted by two different handlers |
| `Skill.FirstMatch` | index.js:147-154 | the first registered handler that accepts the request, or none exactly when no handler accepts it |
| `Skill.DispatchPicksTheAcceptingHandler` | index.js:147-154 | for any list of the handlers, in any order, dispatch picks a handler exactly when that handler is in the list and accepts the request (the handlers are disjoint) |
| `Skill.OperationsTable` | index.js:62-67 | the operations object has four distinct keys naming four different operations, and "divided by" is the key of division and of nothing else |
| `Skill.RandomNumber` | index.js:45 | `randomNumber(min, max)` lies in [min, max] |
| `Skill.RandomNumberReachesEvery` | index.js:45 | every integer in [min, max] is produced by some draw |
| `Skill.RoundedQuotient` | index.js:66 | for x, y in [1, 1000], `(2x + y) / (2y)` is the nearest integer to x / y with halves rounded up, and lies in [0, 1000] |
| `Skill.RoundedQuotientIsRound` | index.js:66 | the integer formula equals `floor(x / y + 1/2)` computed on exact reals, which is `Math.round(x / y)` |
| `Skill.Apply` | index.js:62-67 | plus, minus and times are exact integer arithmetic, with results in [2, 2000], [-999, 999] and [1, 1000000]; division rounds to the nearest integer in [0, 1000] |
| `Skill.SpeechOutput` | index.js:79-82 | the sentence starts with "Here goes: x name y is " and ends with ". Quick maths!"; "approximately " follows that lead exactly when the name is "divided by"; what lies between is the rendered result of the operation |
| `Skill.SpeechTemplate` | index.js:79-82 | for an entry of the table, "approximately " follows the lead exactly when the operation is division, and the number spoken is that operation's result |
| `Skill.SentenceParts` | index.js:79-82 | a rendered number never begins like "approximately ", so the word's presence after the lead is decided by the flag alone; lead, result and closing sit where they were put |
| `Skill.Handle` | index.js:75-129 | only quick maths has a card, titled "Quick Maths" and holding the spoken text. Only help and fallback reprompt, with the fixed texts. Exit speaks the wrapped stop text. Session end speaks nothing. |
| `Skill.HandleQuickMaths` | index.js:75-88 | the quick-maths handler speaks the sentence for the two drawn numbers and the operation whose key the draw selects |
| `Skill.HandleReachesEvery` | index.js:75-82 | every pair of numbers in [1, 1000] with every operation is spoken for some draws |

## Left out

- Loading `speechcons.json` at start-up (lib.js:4-6) is file I/O. The speechcon list is a parameter of `Lib.WrapSpeechconsInSSML` and `Skill.StopMessage`.
- `Math.random()` is not modelled. Each draw is a caller-supplied real in [0, 1). Reals stand in for doubles, so the floating-point rounding of `u * n` is not modelled.
- Lib.WrapSpeechconsInSSML: requires that no word contains `$`. The special `$` patterns of `String.prototype.replace`'s replacement string are not modelled.
- Skill.RoundedQuotient: stated only for x and y in [1, 1000], the range the handler draws from. On that range, floating-point error in `x / y` cannot move `Math.round` across a half.
- Skill.Apply: requires x and y in [1, 1000] for all four operations. The source's arrow functions accept any numbers, but it only ever calls them on `randomNumber(1, 1000)` results.
- Lib.GetRandomItem: requires a non-empty array or object. With an empty array the source returns `undefined`.
- Lib.GetRandomItem: has no case for `null`. `typeof null === "object"` sends `null` to `Object.keys`, which throws.
- `Lib.GetRandomItem`'s types: a statically typed "anything else" case cannot be an array or an object of the same element type.
- The response builder, `SkillBuilders`, `lambda()` and the SDK dispatcher (index.js:84-87, 145-156) are library code that is not part of this model. A response is the record of the calls a handler makes on the builder. `Skill.FirstMatch` stands for the dispatcher's "first registered handler whose `canHandle` holds".
- The `shouldEndSession` flag that the builder derives is not modelled. The model records only whether a reprompt was given.
- `console.log` in the session-ended and error handlers (index.js:124-126, 136) is logging only.
- `ErrorHandler` (index.js:133-143) is left out. Its `canHandle` is always true, and its body only calls the builder.
- `getIntentName` is modelled only where the source calls it: on intent requests, after the request-type test.
