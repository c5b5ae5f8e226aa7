/** The helper library of the skill: picking a random item out of an array or
    an object, and wrapping known interjection words ("speechcons") in SSML
    markup. */
module Lib {

  // ---------------------------------------------------------------------------
  // Random index
  // ---------------------------------------------------------------------------

  /** `Math.floor(u * n)` for a draw `u` of `Math.random()`, which lies in [0, 1).
      The draw is a parameter: the model has no source of randomness. */
  function RandomIndex(u: real, n: nat): (i: nat)
    requires 0.0 <= u < 1.0 && 0 < n
    ensures i < n
  {
    var scaled := u * n as real;
    assert 0.0 <= scaled < n as real by {
      assert u * n as real < 1.0 * n as real;
    }
    scaled.Floor
  }

  /** Every index below `n` is the outcome of some draw, namely `k / n`. */
  lemma RandomIndexReachesEvery(n: nat, k: nat)
    requires k < n
    ensures 0.0 <= k as real / n as real < 1.0
    ensures RandomIndex(k as real / n as real, n) == k
  {
  }

  // ---------------------------------------------------------------------------
  // getRandomItem
  // ---------------------------------------------------------------------------

  /** The three shapes `getRandomItem` tells apart at run time. A record keeps
      the order of its keys (the order `Object.keys` lists them in) beside the
      mapping from key to value. */
  datatype Input<V> =
    | Array(items: seq<V>)
    | Record(keys: seq<string>, fields: map<string, V>)
    | Scalar(value: V)

  /** What `getRandomItem` returns: an element of an array, a one-entry object
      `{ [key]: value }`, or the input itself. */
  datatype Output<V> =
    | Item(item: V)
    | Entry(key: string, value: V)
    | Unchanged(value: V)

  /** A record as a JavaScript object is: its key list has no repetition and
      names exactly the keys of the mapping. */
  ghost predicate ValidRecord<V>(keys: seq<string>, fields: map<string, V>)
  {
    && (forall i, j :: 0 <= i < j < |keys| ==> keys[i] != keys[j])
    && (forall k :: k in fields <==> k in keys)
  }

  /** The number of items a draw chooses among (0 for a scalar). */
  function Size<V>(input: Input<V>): nat
  {
    match input
    case Array(items) => |items|
    case Record(keys, _) => |keys|
    case Scalar(_) => 0
  }

  /** `getRandomItem(input)` with the `Math.random()` draw `u`. An object is
      handled by picking one of its keys with the array case, then building
      the one-entry object for that key. */
  function GetRandomItem<V>(input: Input<V>, u: real): (r: Output<V>)
    requires 0.0 <= u < 1.0
    requires !input.Scalar? ==> Size(input) > 0
    requires input.Record? ==> ValidRecord(input.keys, input.fields)
    ensures input.Array? ==> r == Item(input.items[RandomIndex(u, |input.items|)])
    ensures input.Record? ==>
      var key := input.keys[RandomIndex(u, |input.keys|)];
      key in input.fields && r == Entry(key, input.fields[key])
    ensures input.Scalar? ==> r == Unchanged(input.value)
    decreases if input.Record? then 1 else 0
  {
    match input
    case Array(items) =>
      Item(items[RandomIndex(u, |items|)])
    case Record(keys, fields) =>
      var key := GetRandomItem(Array(keys), u).item;
      Entry(key, fields[key])
    case Scalar(value) =>
      Unchanged(value)
  }

  /** An array pick is an element of the array. */
  lemma GetRandomItemInArray<V>(items: seq<V>, u: real)
    requires 0.0 <= u < 1.0 && |items| > 0
    ensures GetRandomItem(Array(items), u).item in items
  {
  }

  /** Every element of an array is picked by some draw. */
  lemma GetRandomItemPicksEvery<V>(items: seq<V>, k: nat) returns (u: real)
    requires k < |items|
    ensures 0.0 <= u < 1.0 && GetRandomItem(Array(items), u) == Item(items[k])
  {
    u := k as real / |items| as real;
    RandomIndexReachesEvery(|items|, k);
  }

  /** The object pick is a one-entry object whose key is a key of the input,
      holding the input's value for that key. */
  lemma GetRandomItemInRecord<V>(keys: seq<string>, fields: map<string, V>, u: real)
    requires 0.0 <= u < 1.0 && |keys| > 0 && ValidRecord(keys, fields)
    ensures var r := GetRandomItem(Record(keys, fields), u);
      r.Entry? && r.key in fields && r.value == fields[r.key]
  {
  }

  /** Every key of an object, with its value, is picked by some draw. */
  lemma GetRandomItemPicksEveryKey<V>(keys: seq<string>, fields: map<string, V>, key: string)
    returns (u: real)
    requires ValidRecord(keys, fields) && key in fields
    ensures 0.0 <= u < 1.0 && GetRandomItem(Record(keys, fields), u) == Entry(key, fields[key])
  {
    var i :| 0 <= i < |keys| && keys[i] == key;
    u := i as real / |keys| as real;
    RandomIndexReachesEvery(|keys|, i);
  }

  // ---------------------------------------------------------------------------
  // wrapSpeechconsInSSML
  // ---------------------------------------------------------------------------

  /** `w` occurs in `text` at position `p`. */
  predicate OccursAt(text: string, w: string, p: nat)
  {
    p + |w| <= |text| && text[p..p + |w|] == w
  }

  ghost predicate Contains(text: string, w: string)
  {
    exists p: nat :: OccursAt(text, w, p)
  }

  /** `p` is the leftmost position at which `w` occurs in `text`. */
  ghost predicate FirstOccurrence(text: string, w: string, p: nat)
  {
    OccursAt(text, w, p) && forall q: nat :: q < p ==> !OccursAt(text, w, q)
  }

  /** The leftmost occurrence of `w` in `text` at or after `from`, or -1. */
  function IndexFrom(text: string, w: string, from: nat): (r: int)
    ensures r == -1 || (from <= r && OccursAt(text, w, r))
    ensures r == -1 ==> forall q: nat :: from <= q ==> !OccursAt(text, w, q)
    ensures r != -1 ==> forall q: nat :: from <= q < r ==> !OccursAt(text, w, q)
    decreases |text| - from
  {
    if from + |w| > |text| then -1
    else if text[from..from + |w|] == w then from
    else IndexFrom(text, w, from + 1)
  }

  /** `text.indexOf(w)`: the leftmost occurrence of `w`, or -1 when there is none. */
  function IndexOf(text: string, w: string): (r: int)
    ensures -1 <= r
    ensures r == -1 <==> !Contains(text, w)
    ensures r != -1 ==> FirstOccurrence(text, w, r)
  {
    IndexFrom(text, w, 0)
  }

  /** `text.replace(w, replacement)` with a string pattern: only the leftmost
      occurrence of `w` is replaced, and the text around it is kept verbatim.
      (The `$` patterns of the replacement string are not modelled; callers
      pass replacements without `$`.) */
  function ReplaceFirst(text: string, w: string, replacement: string): (r: string)
    ensures !Contains(text, w) ==> r == text
    ensures forall p: nat :: FirstOccurrence(text, w, p) ==>
      r == text[..p] + replacement + text[p + |w|..]
    ensures |r| == if Contains(text, w) then |text| - |w| + |replacement| else |text|
  {
    var p := IndexOf(text, w);
    if p < 0 then text else text[..p] + replacement + text[p + |w|..]
  }

  const MarkupOpen: string := ",<say-as interpret-as=\"interjection\">"
  const MarkupClose: string := "</say-as>,"

  /** The number of characters the markup adds around a word. */
  const MarkupOverhead: nat := 47

  /** The SSML that makes the speech synthesizer say `w` as an interjection,
      set off by a comma on each side. */
  function Markup(w: string): (m: string)
    ensures |m| == |w| + MarkupOverhead
    ensures m[0] == ',' && m[|m| - 1] == ','
    ensures m[|MarkupOpen|..|MarkupOpen| + |w|] == w
  {
    MarkupOpen + w + MarkupClose
  }

  /** The word itself occurs in its markup. */
  lemma MarkupContainsWord(w: string)
    ensures OccursAt(Markup(w), w, |MarkupOpen|)
  {
  }

  /** One iteration of the loop: wrap the first occurrence of `w`. A text
      without `w` is kept; otherwise the text grows by the markup's overhead
      and still contains `w`, now inside its markup. */
  function WrapOne(text: string, w: string): (r: string)
    ensures !Contains(text, w) ==> r == text
    ensures Contains(text, w) ==> |r| == |text| + MarkupOverhead && Contains(r, w)
    ensures forall p: nat :: FirstOccurrence(text, w, p) ==>
      r == text[..p] + Markup(w) + text[p + |w|..]
  {
    var p := IndexOf(text, w);
    if p < 0 then ReplaceFirst(text, w, Markup(w))
    else
      MarkupKeepsWord(text[..p], w, text[p + |w|..]);
      ReplaceFirst(text, w, Markup(w))
  }

  /** Wherever the markup for `w` is put, the word occurs inside it. */
  lemma MarkupKeepsWord(before: string, w: string, after: string)
    ensures Contains(before + Markup(w) + after, w)
  {
    var r := before + Markup(w) + after;
    var q := |before| + |MarkupOpen|;
    assert r[q..q + |w|] == Markup(w)[|MarkupOpen|..|MarkupOpen| + |w|];
    assert OccursAt(r, w, q);
  }

  /** The words `words` applied in list order, each to the text the previous
      ones produced. The text never shrinks and grows by at most one markup
      overhead per word. */
  function WrapAll(words: seq<string>, text: string): (r: string)
    ensures |text| <= |r| <= |text| + MarkupOverhead * |words|
  {
    if words == [] then text
    else WrapOne(WrapAll(words[..|words| - 1], text), words[|words| - 1])
  }

  /** No word contains `$`, so `String.prototype.replace` inserts its markup literally. */
  predicate NoReplacementPatterns(words: seq<string>)
  {
    forall w <- words :: '$' !in w
  }

  /** `wrapSpeechconsInSSML`, with the speechcon list passed in instead of
      loaded from `speechcons.json`. */
  method WrapSpeechconsInSSML(speechcons: seq<string>, textToSearch: string) returns (text: string)
    requires NoReplacementPatterns(speechcons)
    ensures text == WrapAll(speechcons, textToSearch)
  {
    text := textToSearch;
    for k := 0 to |speechcons|
      invariant text == WrapAll(speechcons[..k], textToSearch)
    {
      var element := speechcons[k];
      var elementWithSSML := Markup(element);
      assert speechcons[..k + 1][..k] == speechcons[..k];
      text := ReplaceFirst(text, element, elementWithSSML);
    }
    assert speechcons[..|speechcons|] == speechcons;
  }

  /** The same fold written front to back, as a reduce over the list that
      threads the evolving text. */
  function WrapAllFromFront(words: seq<string>, text: string): string
  {
    if words == [] then text
    else WrapAllFromFront(words[1..], WrapOne(text, words[0]))
  }

  /** Wrapping with `a + b` is wrapping with `a`, then with `b` on its output:
      each word is looked for in the already rewritten text. */
  lemma {:induction false} WrapAllAppend(a: seq<string>, b: seq<string>, text: string)
    ensures WrapAll(a + b, text) == WrapAll(b, WrapAll(a, text))
    decreases |b|
  {
    if b == [] {
      assert a + b == a;
    } else {
      var b' := b[..|b| - 1];
      assert (a + b)[..|a + b| - 1] == a + b';
      WrapAllAppend(a, b', text);
    }
  }

  /** The back-to-front definition used by the loop and the front-to-back
      reduce agree. */
  lemma {:induction false} WrapAllFromFrontAgrees(words: seq<string>, text: string)
    ensures WrapAllFromFront(words, text) == WrapAll(words, text)
    decreases |words|
  {
    if words != [] {
      var w := words[0];
      WrapAllFromFrontAgrees(words[1..], WrapOne(text, w));
      assert WrapAll([w], text) == WrapOne(text, w) by {
        assert [w][..0] == [];
      }
      assert [w] + words[1..] == words;
      WrapAllAppend([w], words[1..], text);
    }
  }

  /** A text in which none of the words occurs comes back unchanged. */
  lemma {:induction false} WrapAllNoneOccur(words: seq<string>, text: string)
    ensures (forall w <- words :: !Contains(text, w)) ==> WrapAll(words, text) == text
    decreases |words|
  {
    if words != [] && forall w <- words :: !Contains(text, w) {
      WrapAllNoneOccur(words[..|words| - 1], text);
    }
  }

  /** Each word is replaced at most once, so the output is the input grown
      by the markup's overhead once per substitution, `n` times for some `n`
      no larger than the number of words. */
  lemma {:induction false} WrapAllLength(words: seq<string>, text: string) returns (n: nat)
    ensures n <= |words|
    ensures |WrapAll(words, text)| == |text| + MarkupOverhead * n
    decreases |words|
  {
    if words == [] {
      n := 0;
    } else {
      var init := words[..|words| - 1];
      var w := words[|words| - 1];
      var m := WrapAllLength(init, text);
      var before := WrapAll(init, text);
      n := if Contains(before, w) then m + 1 else m;
    }
  }

  /** Wrapping is not idempotent: once a word has been wrapped, its markup
      still holds the word, so a second pass wraps it again. */
  lemma WrapTwiceWrapsAgain(w: string, text: string)
    requires Contains(text, w)
    ensures |WrapAll([w], WrapAll([w], text))| == |WrapAll([w], text)| + MarkupOverhead
  {
    assert [w][..0] == [];
  }

  /** A word at the very start of the text is wrapped in place, and the rest
      of the text follows its markup unchanged. */
  lemma WrapOneAtStart(w: string, rest: string)
    ensures WrapAll([w], w + rest) == Markup(w) + rest
  {
  }

  /** The wrapping of a single word in a phrase, with the commas the markup
      carries on each side. */
  lemma WrapExample(words: seq<string>, text: string)
    requires words == ["yo"] && text == "yo, what's good"
    ensures WrapAll(words, text)
         == ",<say-as interpret-as=\"interjection\">yo</say-as>,, what's good"
  {
    var rest := ", what's good";
    assert text == words[0] + rest;
    WrapOneAtStart(words[0], rest);
    MarkupOfYo(rest);
  }

  lemma MarkupOfYo(rest: string)
    ensures Markup("yo") + rest
         == ",<say-as interpret-as=\"interjection\">yo</say-as>," + rest
  {
  }
}
