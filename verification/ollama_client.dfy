/** The model-reply side of `ai_models/ollama_client.py`: cleaning the text
    the language model returns, cutting the JSON array out of it, parsing it
    (an external parser, passed in), and dropping the error entries the
    product does not want to show (`filter_superfluous_errors`). The remote
    completion call itself is an input: its reply, or the text of the
    exception it raised. */
module OllamaClient {
  import opened Wrappers
  import opened PyStr
  import opened Json
  import opened Sequences

  const Fence: string := "```"
  const JsonTag: string := "json"

  /** Error types (`type` field, lower-cased) that are never shown. */
  const ExcludedTypes: set<string> := {"pronunciation", "spelling", "punctuation", "capitalization"}

  /** What went wrong inside `chat_with_ollama`. */
  datatype Cause =
    | MissingApiKey                   // the API key is unset or empty
    | ApiFailure(detail: string)      // the completion request raised
    | NoJsonArray                     // the reply holds no `[`
    | InvalidJson                     // the parser rejected the candidate
    | MalformedFeedback(detail: string) // the filter met a value of the wrong shape

  /** The single error kind `chat_with_ollama` lets escape, whatever the cause. */
  datatype ModelError = RuntimeError(cause: Cause)

  /** The text of the inner exception, as the source words it. */
  function CauseText(c: Cause): string {
    match c
    case MissingApiKey => "TOGETHER_API_KEY is not set in the environment."
    case ApiFailure(d) => d
    case NoJsonArray => "No valid JSON array found in the response."
    case InvalidJson => "The response from the model is not valid JSON."
    case MalformedFeedback(d) => d
  }

  /** The message of the `RuntimeError` that wraps every failure. */
  function Message(e: ModelError): (m: string)
    ensures StartsWith(m, "An error occurred while communicating with the model: ")
  {
    "An error occurred while communicating with the model: " + CauseText(e.cause)
  }

  // ---------------------------------------------------------------------------
  // Cleaning the reply and extracting the array
  // ---------------------------------------------------------------------------

  /** Drops a code fence when the stripped reply both starts and ends with
      three backticks (`content[3:-3].strip()`). */
  function StripFence(c: string): (r: string)
    ensures IsStripped(c) ==> IsStripped(r)
  {
    if StartsWith(c, Fence) && EndsWith(c, Fence) then
      var inner := Slice(c, 3, -3);
      StripIsStripped(inner);
      Strip(inner)
    else c
  }

  /** Drops a leading `json` language tag (`content[4:].strip()`). */
  function StripJsonTag(c: string): (r: string)
    ensures IsStripped(c) ==> IsStripped(r)
  {
    if StartsWith(c, JsonTag) then
      var rest := c[4..];
      StripIsStripped(rest);
      Strip(rest)
    else c
  }

  /** The reply after trimming, fence removal and tag removal, in that order.
      Whatever the reply, the result carries no surrounding whitespace. */
  function CleanContent(content: string): (r: string)
    ensures IsStripped(r)
  {
    var c := Strip(content);
    var c' := StripFence(c);
    StripJsonTag(c')
  }

  /** A reply that is just a stripped payload, possibly padded with
      whitespace, comes back unchanged, provided the payload neither looks
      fenced nor starts with the tag. */
  lemma CleanBare(w1: string, p: string, w2: string)
    requires IsBlank(w1) && IsBlank(w2) && IsStripped(p)
    requires !(StartsWith(p, Fence) && EndsWith(p, Fence))
    requires !StartsWith(p, JsonTag)
    ensures CleanContent(w1 + p + w2) == p
  {
    StripPadded(w1, p, w2);
  }

  /** The fence test and slice on a fenced text leave the stripped body. */
  lemma UnfenceStep(body: string)
    ensures StripFence(Fence + body + Fence) == Strip(body)
  {
    var c := Fence + body + Fence;
    assert StartsWith(c, Fence) && EndsWith(c, Fence);
    assert Slice(c, 3, -3) == body;
  }

  /** Stripping a padded fenced text leaves the fenced text. */
  lemma StripAroundFence(w1: string, body: string, w4: string)
    requires IsBlank(w1) && IsBlank(w4)
    ensures Strip(w1 + (Fence + body + Fence) + w4) == Fence + body + Fence
  {
    var c := Fence + body + Fence;
    assert c[0] == '`' && c[|c| - 1] == '`';
    StripPadded(w1, c, w4);
  }

  /** The fenced reply read as padding around one fenced body. */
  lemma FencedLayout(w1: string, body: string, w4: string, parts: string)
    requires parts == body
    ensures w1 + Fence + parts + Fence + w4 == w1 + (Fence + body + Fence) + w4
  {
  }

  /** A fenced payload without a language tag is unwrapped. */
  lemma CleanFenced(w1: string, w2: string, p: string, w3: string, w4: string)
    requires IsBlank(w1) && IsBlank(w2) && IsBlank(w3) && IsBlank(w4) && IsStripped(p)
    requires !StartsWith(p, JsonTag)
    ensures CleanContent(w1 + Fence + w2 + p + w3 + Fence + w4) == p
  {
    var body := w2 + p + w3;
    assert w1 + Fence + w2 + p + w3 + Fence + w4 == w1 + Fence + body + Fence + w4;
    FencedLayout(w1, body, w4, body);
    StripAroundFence(w1, body, w4);
    UnfenceStep(body);
    StripPadded(w2, p, w3);
  }

  /** A fenced payload tagged `json` is unwrapped and untagged. */
  lemma CleanFencedJson(w1: string, w2: string, p: string, w3: string, w4: string)
    requires IsBlank(w1) && IsBlank(w2) && IsBlank(w3) && IsBlank(w4) && IsStripped(p)
    ensures CleanContent(w1 + Fence + JsonTag + w2 + p + w3 + Fence + w4) == p
  {
    var body := JsonTag + w2 + p + w3;
    assert w1 + Fence + JsonTag + w2 + p + w3 + Fence + w4 == w1 + Fence + body + Fence + w4;
    FencedLayout(w1, body, w4, body);
    StripAroundFence(w1, body, w4);
    UnfenceStep(body);
    UntagPadded(w2, p, w3);
  }

  /** A tagged, padded payload loses its padding and then its tag. */
  lemma UntagPadded(w2: string, p: string, w3: string)
    requires IsBlank(w2) && IsBlank(w3) && IsStripped(p)
    ensures StripJsonTag(Strip(JsonTag + w2 + p + w3)) == p
  {
    if p == [] {
      UntagBlank(w2, p, w3);
    } else {
      UntagNonEmpty(w2, p, w3);
    }
  }

  lemma UntagBlank(w2: string, p: string, w3: string)
    requires IsBlank(w2) && IsBlank(w3) && p == []
    ensures StripJsonTag(Strip(JsonTag + w2 + p + w3)) == p
  {
    var pad := w2 + w3;
    assert JsonTag + w2 + p + w3 == [] + JsonTag + pad;
    BlankAppend(w2, w3);
    StripPadded([], JsonTag, pad);
    DropBareTag();
  }

  /** The tag alone strips to nothing. */
  lemma DropBareTag()
    ensures StripJsonTag(JsonTag) == []
  {
    assert JsonTag[..4] == JsonTag;
    assert JsonTag[4..] == [];
  }

  lemma UntagNonEmpty(w2: string, p: string, w3: string)
    requires IsBlank(w2) && IsBlank(w3) && IsStripped(p) && p != []
    ensures StripJsonTag(Strip(JsonTag + w2 + p + w3)) == p
  {
    StripTaggedPayload(w2, p, w3);
    DropTag(w2, p);
  }

  lemma StripTaggedPayload(w2: string, p: string, w3: string)
    requires IsBlank(w3) && IsStripped(p) && p != []
    ensures Strip(JsonTag + w2 + p + w3) == JsonTag + w2 + p
  {
    var tagged := JsonTag + w2 + p;
    assert JsonTag + w2 + p + w3 == [] + tagged + w3;
    assert tagged[0] == 'j';
    assert tagged[|tagged| - 1] == p[|p| - 1];
    StripPadded([], tagged, w3);
  }

  lemma DropTag(w2: string, p: string)
    requires IsBlank(w2) && IsStripped(p)
    ensures StripJsonTag(JsonTag + w2 + p) == p
  {
    var rest := w2 + p;
    var tagged := JsonTag + rest;
    assert JsonTag + w2 + p == tagged;
    assert |JsonTag| == 4;
    assert tagged[..4] == JsonTag;
    assert tagged[4..] == rest;
    assert rest == w2 + p + [];
    StripPadded(w2, p, []);
  }

  /** `content[content.find("["):content.rfind("]") + 1]`, failing when the
      guard `start_index == -1 or end_index == -1` fires. The guard fires
      exactly when there is no `[`: the `end_index` half can never hold. */
  function ExtractCandidate(content: string): (r: Result<string, Cause>)
    ensures r.Failure? <==> '[' !in content
    ensures r.Failure? ==> r.error == NoJsonArray
    ensures r.Success? && Find(content, '[') < RFind(content, ']') ==>
              var a, b := Find(content, '['), RFind(content, ']');
              && r.value == content[a..b + 1]
              && r.value[0] == '[' && r.value[|r.value| - 1] == ']'
    ensures r.Success? && RFind(content, ']') < Find(content, '[') ==> r.value == []
  {
    var start := Find(content, '[');
    var end := RFind(content, ']') + 1;
    if start == -1 || end == -1 then Failure(NoJsonArray)
    else Success(Slice(content, start, end))
  }

  /** `rfind` is never below -1, so `end_index` is never -1. */
  lemma EndIndexNeverMinusOne(content: string)
    ensures RFind(content, ']') + 1 >= 0
  {
  }

  /** The first `[` and the last `]` never coincide, so the two cases of
      `ExtractCandidate` cover every reply that has a `[`. */
  lemma CandidateCases(content: string)
    requires '[' in content
    ensures Find(content, '[') != RFind(content, ']')
  {
  }

  // ---------------------------------------------------------------------------
  // filter_superfluous_errors
  // ---------------------------------------------------------------------------

  /** Python's name for the type of a parsed value. */
  function TypeName(v: Json): string {
    match v
    case JNull => "NoneType"
    case JBool(_) => "bool"
    case JNumber(_) => "int"
    case JString(_) => "str"
    case JArray(_) => "list"
    case JObject(_) => "dict"
  }

  /** The `AttributeError` raised when `attr` is looked up on `v`. */
  function NoAttribute(v: Json, attr: string): Cause {
    MalformedFeedback("'" + TypeName(v) + "' object has no attribute '" + attr + "'")
  }

  /** `obj.get(key, "").lower()`: a missing key reads as the empty string, a
      string is lower-cased, anything else has no `lower`. */
  function LowerField(obj: map<string, Json>, key: string): (r: Result<string, Cause>)
    ensures key !in obj ==> r == Success([])
    ensures key in obj && obj[key].JString? ==> r == Success(Lower(obj[key].s))
    ensures key in obj && !obj[key].JString? ==> r.Failure?
  {
    if key !in obj then Success([])
    else match obj[key]
      case JString(s) => Success(Lower(s))
      case v => Failure(NoAttribute(v, "lower"))
  }

  /** The text of a field, with a missing or non-string field read as `""`. */
  function TextOf(obj: map<string, Json>, key: string): string {
    if key in obj && obj[key].JString? then obj[key].s else []
  }

  /** An error entry the product hides, stated on the entry's fields: a
      comma in the reason or the error, punctuation in the reason, a "no
      error" placeholder, or an excluded type, all case-insensitively. */
  predicate Superfluous(obj: map<string, Json>) {
    var reason := Lower(TextOf(obj, "reason"));
    var err := Lower(TextOf(obj, "error"));
    var kind := Lower(TextOf(obj, "type"));
    || Contains(reason, "comma")
    || Contains(err, "comma")
    || Contains(reason, "punctuation")
    || err == "no error found"
    || reason == "the sentence is grammatically correct"
    || kind in ExcludedTypes
  }

  /** An error entry worth keeping. */
  predicate Meaningful(e: Json) {
    e.JObject? && !Superfluous(e.fields)
  }

  /** An error entry whose three inspected fields are strings or absent: the
      filter reads it without raising. */
  predicate WellFormedError(e: Json) {
    && e.JObject?
    && ("reason" in e.fields ==> e.fields["reason"].JString?)
    && ("error" in e.fields ==> e.fields["error"].JString?)
    && ("type" in e.fields ==> e.fields["type"].JString?)
  }

  /** The per-entry decision of the inner loop, with Python's short-circuit
      order: `reason` is read first, `error` only when the reason holds no
      comma, `type` only when no earlier condition dropped the entry. */
  function KeepError(e: Json): (r: Result<bool, Cause>)
    ensures r.Success? ==> e.JObject? && (r.value <==> Meaningful(e))
    ensures r == Success(true) ==> WellFormedError(e)
    ensures WellFormedError(e) ==> r.Success?
  {
    match e
    case JObject(obj) =>
      var reason :- LowerField(obj, "reason");
      if Contains(reason, "comma") then Success(false)
      else
        var err :- LowerField(obj, "error");
        if Contains(err, "comma") || Contains(reason, "punctuation") then Success(false)
        else if err == "no error found" || reason == "the sentence is grammatically correct" then Success(false)
        else
          var kind :- LowerField(obj, "type");
          Success(kind !in ExcludedTypes)
    case _ => Failure(NoAttribute(e, "get"))
  }

  /** The entries of `items` that are worth keeping, in order. */
  function MeaningfulOnly(items: seq<Json>): (kept: seq<Json>)
    ensures |kept| <= |items|
  {
    if items == [] then []
    else if Meaningful(items[0]) then [items[0]] + MeaningfulOnly(items[1..])
    else MeaningfulOnly(items[1..])
  }

  /** The kept entries are an in-order selection of the original ones: each
      is meaningful, and every meaningful entry survives. */
  lemma {:induction false} MeaningfulOnlySelects(items: seq<Json>)
    ensures IsSubsequence(MeaningfulOnly(items), items)
    ensures forall e | e in MeaningfulOnly(items) :: Meaningful(e)
    ensures forall e | e in items && Meaningful(e) :: e in MeaningfulOnly(items)
    ensures forall e :: multiset(MeaningfulOnly(items))[e] == if Meaningful(e) then multiset(items)[e] else 0
  {
    if items != [] {
      MeaningfulOnlySelects(items[1..]);
      assert items == [items[0]] + items[1..];
      var rest := MeaningfulOnly(items[1..]);
      if Meaningful(items[0]) {
        assert MeaningfulOnly(items) == [items[0]] + rest;
        assert ([items[0]] + rest)[1..] == rest;
      } else {
        assert MeaningfulOnly(items) == rest;
        if rest != [] {
          assert IsSubsequence(rest, items[1..]);
        }
      }
      forall e | e in items && Meaningful(e) ensures e in MeaningfulOnly(items) {
        if e != items[0] {
          assert e in items[1..];
        }
      }
    }
  }

  /** Keeping only meaningful entries twice is keeping them once. */
  lemma {:induction false} MeaningfulOnlyIdempotent(items: seq<Json>)
    ensures MeaningfulOnly(MeaningfulOnly(items)) == MeaningfulOnly(items)
  {
    if items != [] {
      MeaningfulOnlyIdempotent(items[1..]);
      if Meaningful(items[0]) {
        var rest := MeaningfulOnly(items[1..]);
        assert ([items[0]] + rest)[0] == items[0];
        assert ([items[0]] + rest)[1..] == rest;
      }
    }
  }

  /** The inner loop: the errors that pass `KeepError`, or the first failure. */
  function FilterErrors(items: seq<Json>): (r: Result<seq<Json>, Cause>)
    ensures r.Success? ==> r.value == MeaningfulOnly(items)
    ensures r.Success? ==> forall i | 0 <= i < |r.value| :: WellFormedError(r.value[i])
    ensures r.Success? <==> forall i | 0 <= i < |items| :: KeepError(items[i]).Success?
    ensures r.Failure? ==> r.error.MalformedFeedback?
  {
    if items == [] then Success([])
    else
      AllSucceedCons(KeepError, items);
      var keep :- KeepError(items[0]);
      var rest :- FilterErrors(items[1..]);
      Success(if keep then [items[0]] + rest else rest)
  }

  /** Iterating `sentence.get("errors", [])`: a list yields its elements; an
      empty string or empty dictionary yields nothing; a non-empty string
      or dictionary yields strings, which have no `get`; any other value is
      not iterable. */
  function PriorErrors(sentence: map<string, Json>): (r: Result<seq<Json>, Cause>)
    ensures "errors" !in sentence ==> r == Success([])
    ensures "errors" in sentence && sentence["errors"].JArray? ==> r == Success(sentence["errors"].items)
    ensures r.Failure? ==> r.error.MalformedFeedback?
  {
    if "errors" !in sentence then Success([])
    else match sentence["errors"]
      case JArray(items) => Success(items)
      case JString(s) =>
        if s == [] then Success([]) else Failure(NoAttribute(JString(s[..1]), "get"))
      case JObject(m) =>
        if m == map[] then Success([]) else Failure(NoAttribute(JString([]), "get"))
      case v => Failure(MalformedFeedback("'" + TypeName(v) + "' object is not iterable"))
  }

  /** One sentence of the outer loop: its `errors` list is replaced by the
      kept entries; every other field stays. */
  function FilterSentence(sentence: Json): (r: Result<Json, Cause>)
    ensures r.Success? ==>
              && sentence.JObject? && PriorErrors(sentence.fields).Success?
              && r.value == JObject(sentence.fields["errors" := JArray(MeaningfulOnly(PriorErrors(sentence.fields).value))])
    ensures r.Failure? ==> r.error.MalformedFeedback?
  {
    match sentence
    case JObject(fields) =>
      var prior :- PriorErrors(fields);
      var kept :- FilterErrors(prior);
      Success(JObject(fields["errors" := JArray(kept)]))
    case _ => Failure(NoAttribute(sentence, "get"))
  }

  /** `filter_superfluous_errors`: every sentence keeps its position and all
      of its fields except `errors`, whose new list is the meaningful part of
      the old one (a missing list counts as empty). */
  function FilterSuperfluousErrors(parsed: seq<Json>): (r: Result<seq<Json>, Cause>)
    ensures r.Success? ==> |r.value| == |parsed|
    ensures r.Success? ==> forall i | 0 <= i < |parsed| :: FilterSentence(parsed[i]) == Success(r.value[i])
    ensures r.Failure? ==> r.error.MalformedFeedback?
  {
    if parsed == [] then Success([])
    else
      var first :- FilterSentence(parsed[0]);
      var rest :- FilterSuperfluousErrors(parsed[1..]);
      SucceedsEachCons(FilterSentence, parsed, first, rest);
      Success([first] + rest)
  }

  /** What the filter promises about each surviving sentence, stated on the
      fields: nothing but `errors` changes, `errors` is an in-order selection
      of the old list, no kept entry is superfluous, and no meaningful entry
      is lost. */
  lemma FilterSentenceFrame(sentence: Json)
    requires FilterSentence(sentence).Success?
    ensures var out := FilterSentence(sentence).value;
            var prior := PriorErrors(sentence.fields).value;
            && out.JObject? && sentence.JObject?
            && out.fields.Keys == sentence.fields.Keys + {"errors"}
            && (forall k | k in sentence.fields && k != "errors" :: out.fields[k] == sentence.fields[k])
            && out.fields["errors"].JArray?
            && IsSubsequence(out.fields["errors"].items, prior)
            && (forall e | e in out.fields["errors"].items :: Meaningful(e))
            && (forall e | e in prior && Meaningful(e) :: e in out.fields["errors"].items)
            && (forall e :: multiset(out.fields["errors"].items)[e] == if Meaningful(e) then multiset(prior)[e] else 0)
  {
    MeaningfulOnlySelects(PriorErrors(sentence.fields).value);
  }

  /** A sentence list whose every sentence is a dictionary with an error list
      of well-formed entries (or none) is filtered without failure. */
  lemma {:induction false} FilterSucceedsOnWellFormed(parsed: seq<Json>)
    requires forall i | 0 <= i < |parsed| :: WellFormedSentence(parsed[i])
    ensures FilterSuperfluousErrors(parsed).Success?
  {
    if parsed != [] {
      var s := parsed[0];
      assert WellFormedSentence(s);
      var prior := PriorErrors(s.fields);
      assert prior.Success?;
      assert FilterErrors(prior.value).Success?;
      assert forall i | 0 <= i < |parsed[1..]| :: WellFormedSentence(parsed[1..][i]) by {
        forall i | 0 <= i < |parsed[1..]| ensures WellFormedSentence(parsed[1..][i]) {
          assert parsed[1..][i] == parsed[i + 1];
        }
      }
      FilterSucceedsOnWellFormed(parsed[1..]);
    }
  }

  /** A sentence dictionary whose `errors`, if present, is a list of
      well-formed error entries. */
  predicate WellFormedSentence(s: Json) {
    && s.JObject?
    && ("errors" in s.fields ==>
          && s.fields["errors"].JArray?
          && forall i | 0 <= i < |s.fields["errors"].items| :: WellFormedError(s.fields["errors"].items[i]))
  }

  /** Filtering an already filtered sentence changes nothing. */
  lemma FilterSentenceIdempotent(sentence: Json)
    requires FilterSentence(sentence).Success?
    ensures FilterSentence(FilterSentence(sentence).value) == FilterSentence(sentence)
  {
    var out := FilterSentence(sentence).value;
    var prior := PriorErrors(sentence.fields).value;
    var kept := FilterErrors(prior).value;
    assert out.fields["errors"] == JArray(kept);
    MeaningfulOnlySelects(prior);
    assert forall i | 0 <= i < |kept| :: kept[i] in MeaningfulOnly(prior);
    KeptPassAgain(kept);
    assert out.fields["errors" := JArray(kept)] == out.fields;
  }

  /** A list of meaningful entries is kept whole. */
  lemma {:induction false} MeaningfulOnlyKeepsAll(items: seq<Json>)
    requires forall e | e in items :: Meaningful(e)
    ensures MeaningfulOnly(items) == items
  {
    if items != [] {
      var tail := items[1..];
      assert items[0] in items;
      MeaningfulOnlyKeepsAll(tail);
      assert items == [items[0]] + tail;
    }
  }

  /** Entries that are well formed and meaningful pass the filter intact. */
  lemma KeptPassAgain(kept: seq<Json>)
    requires forall i | 0 <= i < |kept| :: WellFormedError(kept[i]) && Meaningful(kept[i])
    ensures FilterErrors(kept) == Success(kept)
  {
    forall i | 0 <= i < |kept| ensures KeepError(kept[i]).Success? {
      assert WellFormedError(kept[i]);
    }
    forall e | e in kept ensures Meaningful(e) {
      var i :| 0 <= i < |kept| && kept[i] == e;
    }
    MeaningfulOnlyKeepsAll(kept);
  }

  /** `filter_superfluous_errors` is idempotent. */
  lemma {:induction false} FilterIdempotent(parsed: seq<Json>)
    requires FilterSuperfluousErrors(parsed).Success?
    ensures FilterSuperfluousErrors(FilterSuperfluousErrors(parsed).value) == FilterSuperfluousErrors(parsed)
  {
    if parsed != [] {
      var out := FilterSuperfluousErrors(parsed).value;
      FilterSentenceIdempotent(parsed[0]);
      FilterIdempotent(parsed[1..]);
      assert out == [out[0]] + out[1..];
    }
  }

  // ---------------------------------------------------------------------------
  // chat_with_ollama after the request
  // ---------------------------------------------------------------------------

  /** `chat_with_ollama` given the configured API key, the completion
      request's outcome (the reply's content, or the text of the exception it
      raised) and the JSON parser (`None` for a `JSONDecodeError`). A parsed
      value that is not a list is treated as malformed; `json.loads` never
      returns one for text that starts with `[`. */
  function ChatWithOllama(apiKey: string, reply: Result<string, string>,
                          parse: string -> Option<Json>): (r: Result<seq<Json>, ModelError>)
    ensures apiKey == [] ==> r == Failure(RuntimeError(MissingApiKey))
    ensures apiKey != [] && reply.Failure? ==> r == Failure(RuntimeError(ApiFailure(reply.error)))
    ensures r.Success? ==> forall i | 0 <= i < |r.value| :: WellFiltered(r.value[i])
    ensures apiKey != [] && reply.Success? ==>
              var c := ExtractCandidate(CleanContent(reply.value));
              && (c.Failure? ==> r == Failure(RuntimeError(NoJsonArray)))
              && (c.Success? && parse(c.value).None? ==> r == Failure(RuntimeError(InvalidJson)))
              && (c.Success? && parse(c.value).Some? && parse(c.value).value.JArray? ==>
                    var items := parse(c.value).value.items;
                    var f := FilterSuperfluousErrors(items);
                    && (f.Success? ==> r == Success(f.value) && |r.value| == |items|)
                    && (f.Failure? ==> r == Failure(RuntimeError(f.error))))
    ensures apiKey != [] && reply.Success? && r.Failure? ==>
              r.error.cause == NoJsonArray || r.error.cause == InvalidJson || r.error.cause.MalformedFeedback?
  {
    if apiKey == [] then Failure(RuntimeError(MissingApiKey))
    else if reply.Failure? then Failure(RuntimeError(ApiFailure(reply.error)))
    else
      var content := CleanContent(reply.value);
      var extracted := ExtractCandidate(content);
      if extracted.Failure? then Failure(RuntimeError(extracted.error))
      else
        var parsed := parse(extracted.value);
        if parsed.None? then Failure(RuntimeError(InvalidJson))
        else if !parsed.value.JArray? then Failure(RuntimeError(NoAttribute(JString([]), "get")))
        else
          var items := parsed.value.items;
          var filtered := FilterSuperfluousErrors(items);
          if filtered.Failure? then Failure(RuntimeError(filtered.error))
          else
            assert forall i | 0 <= i < |filtered.value| :: WellFiltered(filtered.value[i]) by {
              forall i | 0 <= i < |filtered.value| ensures WellFiltered(filtered.value[i]) {
                FilterSentenceFrame(items[i]);
              }
            }
            Success(filtered.value)
  }

  /** A sentence as the filter leaves it: a dictionary whose `errors` is a
      list of meaningful entries only. */
  predicate WellFiltered(s: Json) {
    && s.JObject? && "errors" in s.fields && s.fields["errors"].JArray?
    && forall e | e in s.fields["errors"].items :: Meaningful(e)
  }

  /** A reply with no `[` once cleaned fails with the missing-array cause. */
  lemma ChatWithoutBracket(apiKey: string, raw: string, parse: string -> Option<Json>)
    requires apiKey != [] && '[' !in CleanContent(raw)
    ensures ChatWithOllama(apiKey, Success(raw), parse) == Failure(RuntimeError(NoJsonArray))
  {
  }

  /** A reply that opens an array and never closes it hands the parser the
      empty slice (`end_index` is 0), so the failure is the parser's, as
      `json.loads("")` raises. */
  lemma ChatUnclosedArray(apiKey: string, raw: string, parse: string -> Option<Json>)
    requires apiKey != [] && parse([]) == None
    requires IsStripped(raw) && raw != [] && raw[0] == '[' && ']' !in raw
    ensures ChatWithOllama(apiKey, Success(raw), parse) == Failure(RuntimeError(InvalidJson))
  {
    if |raw| >= 3 {
      assert raw[..3][0] == '[';
    }
    if |raw| >= 4 {
      assert raw[..4][0] == '[';
    }
    assert !StartsWith(raw, Fence) && !StartsWith(raw, JsonTag);
    StripOfStripped(raw);
  }
}
