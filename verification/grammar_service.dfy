/** The deterministic part of `app/services/grammar_service.py`: greedy
    packing of sentences into word-bounded chunks (`chunk_sentences`), the
    per-sentence templates and the error wrapping of one model call
    (`ollama_analysis`), and the per-chunk loop of `analyze_text`.

    The sentence tokenizer, the id generator, the clock and the model
    call are parameters. */
module GrammarService {
  import opened Wrappers
  import opened PyStr
  import opened Json
  import opened Sequences
  import opened OllamaClient

  /** The default `max_tokens` of `chunk_sentences`. */
  const DefaultMaxTokens: int := 200

  /** A sentence tokenizer, `nltk.sent_tokenize`. */
  type Tokenizer = string -> seq<string>

  /** The `uuid4` values drawn, the k-th call returning `ids(k)`. */
  type IdSource = nat -> string

  /** A chunk as `chunk_sentences` emits it: an id and the space-joined text. */
  datatype Chunk = Chunk(id: string, text: string)

  // ---------------------------------------------------------------------------
  // chunk_sentences
  // ---------------------------------------------------------------------------

  /** How much one sentence weighs against the bound; `chunk_sentences`
      uses `len(sentence.split())`. */
  type Measure = string -> nat

  /** The summed weight of a group of sentences. */
  function Size(group: seq<string>, size: Measure): nat {
    if group == [] then 0 else Size(group[..|group| - 1], size) + size(group[|group| - 1])
  }

  lemma SizeAppend(group: seq<string>, s: string, size: Measure)
    ensures Size(group + [s], size) == Size(group, size) + size(s)
  {
    assert (group + [s])[..|group|] == group;
  }

  lemma SizeSingle(s: string, size: Measure)
    ensures Size([s], size) == size(s)
  {
    var empty: seq<string> := [];
    SizeAppend(empty, s, size);
    assert empty + [s] == [s];
  }

  /** The `for sentence in sentences` loop of `chunk_sentences`, from the
      state (`closed` chunks so far, `current` chunk, its weight `count`) on
      the sentences still to come. A chunk is closed, without looking at
      whether it is empty, when the next sentence would push the count over
      the bound; the last chunk is kept only if it is non-empty. */
  function PackLoop(rest: seq<string>, maxTokens: int, size: Measure, closed: seq<seq<string>>,
                    current: seq<string>, count: int): (groups: seq<seq<string>>)
    ensures |closed| <= |groups| <= |closed| + |rest| + 1
    ensures groups[..|closed|] == closed
    decreases |rest|
  {
    if rest == [] then
      if current != [] then closed + [current] else closed
    else
      var tokens := size(rest[0]);
      if count + tokens > maxTokens then
        PackLoop(rest[1..], maxTokens, size, closed + [current], [rest[0]], tokens)
      else
        PackLoop(rest[1..], maxTokens, size, closed, current + [rest[0]], count + tokens)
  }

  /** The sentence groups `chunk_sentences` forms from the tokenizer's
      sentences. */
  function Pack(sentences: seq<string>, maxTokens: int, size: Measure): (groups: seq<seq<string>>)
    ensures |groups| <= |sentences| + 1
    ensures sentences == [] ==> groups == []
  {
    PackLoop(sentences, maxTokens, size, [], [], 0)
  }

  /** `chunk_sentences(text, max_tokens)`: the groups, weighed by word count,
      each become a chunk with the next id and its sentences joined by single
      spaces. */
  function ChunkSentences(text: string, tokenize: Tokenizer, maxTokens: int, ids: IdSource): (chunks: seq<Chunk>)
    ensures |chunks| == |Pack(tokenize(text), maxTokens, WordCount)|
    ensures forall k | 0 <= k < |chunks| ::
              chunks[k] == Chunk(ids(k), JoinSpace(Pack(tokenize(text), maxTokens, WordCount)[k]))
  {
    var groups := Pack(tokenize(text), maxTokens, WordCount);
    seq(|groups|, k requires 0 <= k < |groups| => Chunk(ids(k), JoinSpace(groups[k])))
  }

  // Coverage ------------------------------------------------------------------

  lemma {:induction false} PackLoopCovers(rest: seq<string>, maxTokens: int, size: Measure,
                                          closed: seq<seq<string>>, current: seq<string>, count: int)
    ensures Flatten(PackLoop(rest, maxTokens, size, closed, current, count)) == Flatten(closed) + current + rest
    decreases |rest|
  {
    if rest == [] {
      if current != [] {
        FlattenAppend(closed, current);
      }
    } else {
      var tokens := size(rest[0]);
      if count + tokens > maxTokens {
        PackLoopCovers(rest[1..], maxTokens, size, closed + [current], [rest[0]], tokens);
        FlattenAppend(closed, current);
        assert [rest[0]] + rest[1..] == rest;
      } else {
        PackLoopCovers(rest[1..], maxTokens, size, closed, current + [rest[0]], count + tokens);
        assert current + [rest[0]] + rest[1..] == current + rest;
      }
    }
  }

  /** Concatenating the chunks' sentence lists, in order, gives back the
      tokenizer's sentences exactly: nothing lost, repeated or reordered. */
  lemma PackCovers(sentences: seq<string>, maxTokens: int, size: Measure)
    ensures Flatten(Pack(sentences, maxTokens, size)) == sentences
  {
    PackLoopCovers(sentences, maxTokens, size, [], [], 0);
  }

  // Bound ---------------------------------------------------------------------

  /** A group of two or more sentences fits the bound. */
  predicate FitsIfMerged(group: seq<string>, maxTokens: int, size: Measure) {
    |group| >= 2 ==> Size(group, size) <= maxTokens
  }

  predicate AllFit(groups: seq<seq<string>>, maxTokens: int, size: Measure) {
    forall k | 0 <= k < |groups| :: FitsIfMerged(groups[k], maxTokens, size)
  }

  lemma AllFitAppend(groups: seq<seq<string>>, g: seq<string>, maxTokens: int, size: Measure)
    requires AllFit(groups, maxTokens, size) && FitsIfMerged(g, maxTokens, size)
    ensures AllFit(groups + [g], maxTokens, size)
  {
    forall k | 0 <= k < |groups| + 1 ensures FitsIfMerged((groups + [g])[k], maxTokens, size) {
      if k < |groups| {
        assert (groups + [g])[k] == groups[k];
      }
    }
  }

  lemma {:induction false} PackLoopBound(rest: seq<string>, maxTokens: int, size: Measure,
                                         closed: seq<seq<string>>, current: seq<string>, count: int)
    requires count == Size(current, size)
    requires AllFit(closed, maxTokens, size) && FitsIfMerged(current, maxTokens, size)
    ensures AllFit(PackLoop(rest, maxTokens, size, closed, current, count), maxTokens, size)
    decreases |rest|
  {
    if rest == [] {
      if current != [] {
        AllFitAppend(closed, current, maxTokens, size);
      }
    } else {
      var tokens := size(rest[0]);
      if count + tokens > maxTokens {
        AllFitAppend(closed, current, maxTokens, size);
        SizeSingle(rest[0], size);
        PackLoopBound(rest[1..], maxTokens, size, closed + [current], [rest[0]], tokens);
      } else {
        SizeAppend(current, rest[0], size);
        PackLoopBound(rest[1..], maxTokens, size, closed, current + [rest[0]], count + tokens);
      }
    }
  }

  /** Joining a group with spaces keeps its word count: the text of a chunk
      has as many words as its sentences together. */
  lemma {:induction false} ChunkWordCount(group: seq<string>)
    ensures WordCount(JoinSpace(group)) == Size(group, WordCount)
    decreases |group|
  {
    if group == [] {
      WordCountZeroIffBlank([]);
    } else if |group| == 1 {
      SizeSingle(group[0], WordCount);
    } else {
      var init := group[..|group| - 1];
      var last := group[|group| - 1];
      assert group == init + [last];
      ChunkWordCount(init);
      JoinSpaceAppend(init, [last]);
      WordCountJoin(JoinSpace(init), last);
      SizeAppend(init, last, WordCount);
    }
  }

  /** Every chunk of more than one sentence weighs at most `maxTokens`;
      only a single sentence may exceed the bound on its own. */
  lemma PackBound(sentences: seq<string>, maxTokens: int, size: Measure)
    ensures var groups := Pack(sentences, maxTokens, size);
            forall k | 0 <= k < |groups| :: |groups[k]| >= 2 ==> Size(groups[k], size) <= maxTokens
  {
    PackLoopBound(sentences, maxTokens, size, [], [], 0);
    var groups := Pack(sentences, maxTokens, size);
    assert AllFit(groups, maxTokens, size);
    forall k | 0 <= k < |groups| ensures |groups[k]| >= 2 ==> Size(groups[k], size) <= maxTokens {
      assert FitsIfMerged(groups[k], maxTokens, size);
    }
  }

  /** Every chunk that `chunk_sentences` built from two or more sentences
      has at most `maxTokens` words in its text. */
  lemma ChunkSentencesBound(text: string, tokenize: Tokenizer, maxTokens: int, ids: IdSource)
    ensures var groups := Pack(tokenize(text), maxTokens, WordCount);
            var chunks := ChunkSentences(text, tokenize, maxTokens, ids);
            forall k | 0 <= k < |chunks| :: |groups[k]| >= 2 ==> WordCount(chunks[k].text) <= maxTokens
  {
    var groups := Pack(tokenize(text), maxTokens, WordCount);
    var chunks := ChunkSentences(text, tokenize, maxTokens, ids);
    PackBound(tokenize(text), maxTokens, WordCount);
    forall k | 0 <= k < |chunks| ensures |groups[k]| >= 2 ==> WordCount(chunks[k].text) <= maxTokens {
      ChunkWordCount(groups[k]);
    }
  }

  // Empty chunks --------------------------------------------------------------

  predicate NoneEmpty(groups: seq<seq<string>>) {
    forall k | 0 <= k < |groups| :: groups[k] != []
  }

  lemma {:induction false} PackLoopNonEmpty(rest: seq<string>, maxTokens: int, size: Measure,
                                            closed: seq<seq<string>>, current: seq<string>, count: int)
    requires current != [] && NoneEmpty(closed)
    ensures var groups := PackLoop(rest, maxTokens, size, closed, current, count);
            groups != [] && NoneEmpty(groups)
    decreases |rest|
  {
    if rest == [] {
      assert (closed + [current])[|closed|] == current;
      assert forall k | 0 <= k < |closed| :: (closed + [current])[k] == closed[k];
    } else {
      var tokens := size(rest[0]);
      if count + tokens > maxTokens {
        assert (closed + [current])[|closed|] == current;
        assert forall k | 0 <= k < |closed| :: (closed + [current])[k] == closed[k];
        PackLoopNonEmpty(rest[1..], maxTokens, size, closed + [current], [rest[0]], tokens);
      } else {
        PackLoopNonEmpty(rest[1..], maxTokens, size, closed, current + [rest[0]], count + tokens);
      }
    }
  }

  /** The closed chunks are carried through the loop untouched. */
  lemma {:induction false} PackLoopShift(rest: seq<string>, maxTokens: int, size: Measure,
                                         closed: seq<seq<string>>, current: seq<string>, count: int)
    ensures PackLoop(rest, maxTokens, size, [[]] + closed, current, count)
            == [[]] + PackLoop(rest, maxTokens, size, closed, current, count)
    decreases |rest|
  {
    if rest == [] {
      assert [[]] + closed + [current] == [[]] + (closed + [current]);
    } else {
      var tokens := size(rest[0]);
      if count + tokens > maxTokens {
        assert [[]] + closed + [current] == [[]] + (closed + [current]);
        PackLoopShift(rest[1..], maxTokens, size, closed + [current], [rest[0]], tokens);
      } else {
        PackLoopShift(rest[1..], maxTokens, size, closed, current + [rest[0]], count + tokens);
      }
    }
  }

  /** How `Pack` starts: when the first sentence alone is over the bound, an
      empty chunk is emitted first and the rest of the run starts afresh;
      otherwise the first sentence opens the first chunk. */
  lemma PackFirstStep(sentences: seq<string>, maxTokens: int, size: Measure)
    requires sentences != []
    ensures var s := sentences[0];
            size(s) > maxTokens ==>
              Pack(sentences, maxTokens, size) == [[]] + PackLoop(sentences[1..], maxTokens, size, [], [s], size(s))
    ensures var s := sentences[0];
            size(s) <= maxTokens ==>
              Pack(sentences, maxTokens, size) == PackLoop(sentences[1..], maxTokens, size, [], [s], size(s))
  {
    var s := sentences[0];
    if size(s) > maxTokens {
      var none: seq<seq<string>> := [];
      assert none + [[]] == [[]] + none;
      PackLoopShift(sentences[1..], maxTokens, size, [], [s], size(s));
    } else {
      var empty: seq<string> := [];
      assert empty + [s] == [s];
    }
  }

  /** An empty chunk can only be the first one, and there is one exactly when
      the first sentence alone is over the bound: the flush does not check
      that the current chunk holds anything. */
  lemma PackEmptyChunk(sentences: seq<string>, maxTokens: int, size: Measure)
    ensures var groups := Pack(sentences, maxTokens, size);
            && (forall k | 0 < k < |groups| :: groups[k] != [])
            && ((groups != [] && groups[0] == []) <==> (sentences != [] && size(sentences[0]) > maxTokens))
  {
    var groups := Pack(sentences, maxTokens, size);
    if sentences != [] {
      var s := sentences[0];
      PackFirstStep(sentences, maxTokens, size);
      var tail := PackLoop(sentences[1..], maxTokens, size, [], [s], size(s));
      PackLoopNonEmpty(sentences[1..], maxTokens, size, [], [s], size(s));
      if size(s) > maxTokens {
        assert groups == [[]] + tail;
        forall k | 0 < k < |groups| ensures groups[k] != [] {
          assert groups[k] == tail[k - 1];
        }
      } else {
        assert groups == tail;
      }
    }
  }

  /** No sentences, no chunks; otherwise the last chunk is never empty. */
  lemma PackNoTrailingEmpty(sentences: seq<string>, maxTokens: int, size: Measure)
    ensures sentences == [] <==> Pack(sentences, maxTokens, size) == []
    ensures var groups := Pack(sentences, maxTokens, size);
            groups != [] ==> groups[|groups| - 1] != []
  {
    if sentences != [] {
      var s := sentences[0];
      PackFirstStep(sentences, maxTokens, size);
      var tail := PackLoop(sentences[1..], maxTokens, size, [], [s], size(s));
      PackLoopNonEmpty(sentences[1..], maxTokens, size, [], [s], size(s));
      assert tail[|tail| - 1] != [];
      if size(s) > maxTokens {
        assert Pack(sentences, maxTokens, size) == [[]] + tail;
      }
    }
  }

  // Greediness ----------------------------------------------------------------

  /** `next` could not have been added to `group` without passing the bound. */
  predicate ClosedBefore(group: seq<string>, next: seq<string>, maxTokens: int, size: Measure) {
    next != [] && Size(group, size) + size(next[0]) > maxTokens
  }

  predicate AllClosedBefore(groups: seq<seq<string>>, maxTokens: int, size: Measure) {
    forall k | 0 <= k < |groups| - 1 :: ClosedBefore(groups[k], groups[k + 1], maxTokens, size)
  }

  lemma ClosedBeforeAppend(groups: seq<seq<string>>, g: seq<string>, maxTokens: int, size: Measure)
    requires AllClosedBefore(groups, maxTokens, size)
    requires groups != [] ==> ClosedBefore(groups[|groups| - 1], g, maxTokens, size)
    ensures AllClosedBefore(groups + [g], maxTokens, size)
  {
    var gs := groups + [g];
    forall k | 0 <= k < |gs| - 1 ensures ClosedBefore(gs[k], gs[k + 1], maxTokens, size) {
      assert gs[k] == groups[k];
      if k + 1 < |groups| {
        assert gs[k + 1] == groups[k + 1];
      } else {
        assert gs[k + 1] == g;
      }
    }
  }

  lemma {:induction false} PackLoopGreedy(rest: seq<string>, maxTokens: int, size: Measure,
                                          closed: seq<seq<string>>, current: seq<string>, count: int)
    requires count == Size(current, size)
    requires AllClosedBefore(closed, maxTokens, size)
    requires closed != [] ==> ClosedBefore(closed[|closed| - 1], current, maxTokens, size)
    requires current == [] ==> closed == []
    ensures AllClosedBefore(PackLoop(rest, maxTokens, size, closed, current, count), maxTokens, size)
    decreases |rest|
  {
    if rest == [] {
      if current != [] {
        ClosedBeforeAppend(closed, current, maxTokens, size);
      }
    } else {
      var tokens := size(rest[0]);
      if count + tokens > maxTokens {
        ClosedBeforeAppend(closed, current, maxTokens, size);
        SizeSingle(rest[0], size);
        var closed' := closed + [current];
        assert closed'[|closed'| - 1] == current;
        assert ClosedBefore(current, [rest[0]], maxTokens, size);
        PackLoopGreedy(rest[1..], maxTokens, size, closed', [rest[0]], tokens);
      } else {
        SizeAppend(current, rest[0], size);
        var current' := current + [rest[0]];
        if current != [] {
          assert current'[0] == current[0];
        }
        PackLoopGreedy(rest[1..], maxTokens, size, closed, current', count + tokens);
      }
    }
  }

  /** Chunks are maximal: each chunk was closed only because the first
      sentence of the next one would have pushed it over the bound. */
  lemma PackGreedy(sentences: seq<string>, maxTokens: int, size: Measure)
    ensures var groups := Pack(sentences, maxTokens, size);
            forall j | 0 < j < |groups| ::
              groups[j] != [] && Size(groups[j - 1], size) + size(groups[j][0]) > maxTokens
  {
    PackLoopGreedy(sentences, maxTokens, size, [], [], 0);
    var groups := Pack(sentences, maxTokens, size);
    assert AllClosedBefore(groups, maxTokens, size);
    forall j | 0 < j < |groups|
      ensures groups[j] != [] && Size(groups[j - 1], size) + size(groups[j][0]) > maxTokens
    {
      assert ClosedBefore(groups[j - 1], groups[j - 1 + 1], maxTokens, size);
    }
  }

  // ---------------------------------------------------------------------------
  // ollama_analysis
  // ---------------------------------------------------------------------------

  const CorrectedPlaceholder: string := "the_corrected_version_of_the_sentence"
  const ErrorPlaceholder: string := "description_of_the_error"
  const ReasonPlaceholder: string := "grammatical_reason_for_the_error"
  const SuggestionPlaceholder: string := "suggestion_to_fix_the_error"
  const ClausePlaceholder: string := "the_corrected_version_of_the_clause"

  /** The example error inside a sentence template. */
  datatype ErrorTemplate = ErrorTemplate(id: string, error: string, reason: string,
                                         suggestion: string, improvedClause: string)

  /** One entry of the example output shape the prompt shows the model. */
  datatype SentenceTemplate = SentenceTemplate(id: string, original: string, corrected: string,
                                               errors: seq<ErrorTemplate>)

  /** The prompt's variable parts: the language named in its first line, the
      templates rendered as JSON, and the chunk's text. */
  datatype Prompt = Prompt(targetLanguage: string, templates: seq<SentenceTemplate>, transcription: string)

  /** The placeholder error whose id is `id`. */
  function PlaceholderError(id: string): ErrorTemplate {
    ErrorTemplate(id, ErrorPlaceholder, ReasonPlaceholder, SuggestionPlaceholder, ClausePlaceholder)
  }

  /** The template loop: one template per sentence, in order, all carrying
      the chunk's id, each with the stripped sentence and its own fresh
      error id. */
  function Templates(chunkId: string, sentences: seq<string>, errorIds: IdSource): (ts: seq<SentenceTemplate>)
    ensures |ts| == |sentences|
    ensures forall i | 0 <= i < |ts| ::
              && ts[i].id == chunkId
              && ts[i].original == Strip(sentences[i])
              && ts[i].corrected == CorrectedPlaceholder
              && ts[i].errors == [PlaceholderError(errorIds(i))]
  {
    seq(|sentences|, i requires 0 <= i < |sentences| =>
      SentenceTemplate(chunkId, Strip(sentences[i]), CorrectedPlaceholder, [PlaceholderError(errorIds(i))]))
  }

  /** Why a chunk produced no feedback. */
  datatype ChunkFailure =
    | EmptyChunkText                    // blank chunk text; the model is not asked
    | ModelCallFailed(error: ModelError) // the call raised

  /** The result of `ollama_analysis`: an `{"error": ...}` dictionary or the
      filtered sentence list. */
  datatype ChunkResult = ChunkFailed(reason: ChunkFailure) | ChunkFeedback(sentences: seq<Json>)

  /** The `error` text of a failed chunk. */
  function ErrorText(f: ChunkFailure): (text: string)
    ensures StartsWith(text, "Ollama API error: ") <==> f.ModelCallFailed?
  {
    match f
    case EmptyChunkText =>
      var t := "Chunk text is empty or invalid";
      assert t[..18][0] == 'C';
      t
    case ModelCallFailed(e) => "Ollama API error: " + Message(e)
  }

  /** The handler for `json.JSONDecodeError` can never run: the call only
      lets `RuntimeError` escape, so its message never appears. */
  lemma InvalidJsonHandlerUnreachable(f: ChunkFailure)
    ensures ErrorText(f) != "Ollama returned invalid JSON"
  {
    if f.ModelCallFailed? {
      assert ErrorText(f)[7] == 'A';
    }
  }

  /** The prompt `ollama_analysis` sends for a chunk. */
  function PromptFor(chunk: Chunk, targetLanguage: string, tokenize: Tokenizer, errorIds: IdSource): (p: Prompt)
    ensures p.targetLanguage == targetLanguage && p.transcription == chunk.text
    ensures |p.templates| == |tokenize(chunk.text)|
    ensures forall i | 0 <= i < |p.templates| ::
              p.templates[i].id == chunk.id && p.templates[i].original == Strip(tokenize(chunk.text)[i])
  {
    Prompt(targetLanguage, Templates(chunk.id, tokenize(chunk.text), errorIds), chunk.text)
  }

  /** `ollama_analysis`. A blank chunk fails before the model is consulted;
      otherwise the model is asked with the chunk's prompt, and any failure
      of the call comes back as a failed chunk rather than escaping. The
      `app_language` argument is accepted and unused, as in the source. */
  function OllamaAnalysis(chunk: Chunk, targetLanguage: string, appLanguage: string,
                          tokenize: Tokenizer, errorIds: IdSource, apiKey: string,
                          complete: Prompt -> Result<string, string>,
                          parse: string -> Option<Json>): (r: ChunkResult)
    ensures IsBlank(chunk.text) ==> r == ChunkFailed(EmptyChunkText)
    ensures !IsBlank(chunk.text) ==>
              var call := ChatWithOllama(apiKey, complete(PromptFor(chunk, targetLanguage, tokenize, errorIds)), parse);
              && (call.Success? ==> r == ChunkFeedback(call.value))
              && (call.Failure? ==> r == ChunkFailed(ModelCallFailed(call.error)))
  {
    if IsBlank(chunk.text) then ChunkFailed(EmptyChunkText)
    else
      var prompt := PromptFor(chunk, targetLanguage, tokenize, errorIds);
      var call := ChatWithOllama(apiKey, complete(prompt), parse);
      if call.Success? then ChunkFeedback(call.value) else ChunkFailed(ModelCallFailed(call.error))
  }

  /** A blank chunk's result does not depend on the model at all. */
  lemma BlankChunkSkipsModel(chunk: Chunk, targetLanguage: string, appLanguage: string,
                             tokenize: Tokenizer, errorIds: IdSource, apiKey: string,
                             complete1: Prompt -> Result<string, string>,
                             complete2: Prompt -> Result<string, string>,
                             parse: string -> Option<Json>)
    requires IsBlank(chunk.text)
    ensures OllamaAnalysis(chunk, targetLanguage, appLanguage, tokenize, errorIds, apiKey, complete1, parse)
         == OllamaAnalysis(chunk, targetLanguage, appLanguage, tokenize, errorIds, apiKey, complete2, parse)
  {
  }

  // ---------------------------------------------------------------------------
  // analyze_text
  // ---------------------------------------------------------------------------

  /** The dictionary `analyze_text` returns. Each element of
      `sentenceFeedback` is one chunk's whole sentence list. */
  datatype Analysis = Analysis(createdAt: string, originalText: string, sentenceFeedback: seq<seq<Json>>)

  /** The sentence lists of the successful results, in their order. */
  function Successful(results: seq<ChunkResult>): (fb: seq<seq<Json>>)
    ensures |fb| <= |results|
  {
    if results == [] then []
    else
      var last := results[|results| - 1];
      Successful(results[..|results| - 1]) + (if last.ChunkFeedback? then [last.sentences] else [])
  }

  /** What `Successful` keeps: exactly the feedback of the chunks that
      succeeded, in chunk order; failed chunks leave no trace. */
  lemma {:induction false} SuccessfulSelects(results: seq<ChunkResult>)
    ensures forall fb | fb in Successful(results) :: ChunkFeedback(fb) in results
    ensures forall k | 0 <= k < |results| && results[k].ChunkFeedback? :: results[k].sentences in Successful(results)
    ensures (forall k | 0 <= k < |results| :: results[k].ChunkFailed?) ==> Successful(results) == []
  {
    if results != [] {
      var init := results[..|results| - 1];
      SuccessfulSelects(init);
      forall k | 0 <= k < |results| - 1 ensures results[k] == init[k] {
      }
    }
  }

  /** `Successful` on one chunk: a success contributes its one sentence
      list, a failure nothing. */
  lemma SuccessfulSingle(result: ChunkResult)
    ensures result.ChunkFeedback? ==> Successful([result]) == [result.sentences]
    ensures result.ChunkFailed? ==> Successful([result]) == []
  {
    assert [result][..0] == [];
  }

  /** `Successful` distributes over concatenation: with `SuccessfulSingle`
      this pins it down as one list per successful chunk, in chunk order. */
  lemma {:induction false} SuccessfulAppend(a: seq<ChunkResult>, b: seq<ChunkResult>)
    ensures Successful(a + b) == Successful(a) + Successful(b)
    decreases |b|
  {
    if b == [] {
      assert a + b == a;
    } else {
      var n := |b| - 1;
      var init := b[..n];
      assert (a + b)[..|a + b| - 1] == a + init;
      assert (a + b)[|a + b| - 1] == b[n];
      SuccessfulAppend(a, init);
    }
  }

  /** One more result extends `Successful` of a prefix by at most that
      result's sentence list. */
  lemma SuccessfulStep(results: seq<ChunkResult>, i: nat)
    requires i < |results|
    ensures Successful(results[..i + 1])
         == Successful(results[..i]) + (if results[i].ChunkFeedback? then [results[i].sentences] else [])
  {
    assert results[..i + 1][..i] == results[..i];
  }

  /** A failed first chunk, such as the leading empty one, changes nothing. */
  lemma {:induction false} SuccessfulSkipsFailedHead(results: seq<ChunkResult>)
    requires results != [] && results[0].ChunkFailed?
    ensures Successful(results) == Successful(results[1..])
    decreases |results|
  {
    if |results| > 1 {
      var init := results[..|results| - 1];
      SuccessfulSkipsFailedHead(init);
      assert init[1..] == results[1..][..|results[1..]| - 1];
    }
  }

  /** `analyze_text`: a blank transcription fails before any chunking or
      model call; otherwise every chunk is analysed, failed chunks are
      skipped, and the successful chunks' sentence lists are kept in chunk
      order, with the transcription itself as `originalText`. The k-th chunk
      draws its template error ids from `errorIds(k)`. */
  method AnalyzeText(transcription: string, targetLanguage: string, appLanguage: string,
                     tokenize: Tokenizer, chunkIds: IdSource, errorIds: nat -> IdSource,
                     apiKey: string, complete: Prompt -> Result<string, string>,
                     parse: string -> Option<Json>, now: string)
    returns (r: Result<Analysis, string>)
    ensures r.Failure? <==> IsBlank(transcription)
    ensures r.Failure? ==> r.error == "Transcription is empty"
    ensures r.Success? ==>
              var chunks := ChunkSentences(transcription, tokenize, DefaultMaxTokens, chunkIds);
              && r.value.originalText == transcription
              && r.value.createdAt == now
              && r.value.sentenceFeedback == Successful(ResultsOf(chunks, targetLanguage, appLanguage, tokenize,
                                                                  errorIds, apiKey, complete, parse))
  {
    if IsBlank(transcription) {
      return Failure("Transcription is empty");
    }
    var chunks := ChunkSentences(transcription, tokenize, DefaultMaxTokens, chunkIds);
    ghost var results := ResultsOf(chunks, targetLanguage, appLanguage, tokenize, errorIds, apiKey, complete, parse);
    var feedback: seq<seq<Json>> := [];
    var i := 0;
    while i < |chunks|
      invariant 0 <= i <= |chunks|
      invariant feedback == Successful(results[..i])
    {
      var result := OllamaAnalysis(chunks[i], targetLanguage, appLanguage, tokenize, errorIds(i), apiKey, complete, parse);
      assert result == results[i];
      SuccessfulStep(results, i);
      if result.ChunkFeedback? {
        feedback := feedback + [result.sentences];
      }
      i := i + 1;
    }
    assert results[..|chunks|] == results;
    return Success(Analysis(now, transcription, feedback));
  }

  /** The per-chunk results, in chunk order. */
  function ResultsOf(chunks: seq<Chunk>, targetLanguage: string, appLanguage: string,
                     tokenize: Tokenizer, errorIds: nat -> IdSource, apiKey: string,
                     complete: Prompt -> Result<string, string>,
                     parse: string -> Option<Json>): (results: seq<ChunkResult>)
    ensures |results| == |chunks|
    ensures forall k | 0 <= k < |chunks| ::
              results[k] == OllamaAnalysis(chunks[k], targetLanguage, appLanguage, tokenize, errorIds(k), apiKey, complete, parse)
  {
    seq(|chunks|, k requires 0 <= k < |chunks| =>
      OllamaAnalysis(chunks[k], targetLanguage, appLanguage, tokenize, errorIds(k), apiKey, complete, parse))
  }

  /** The leading empty chunk never reaches the result: its text is blank,
      so its analysis fails without a model call and is dropped. */
  lemma LeadingEmptyChunkDropped(transcription: string, targetLanguage: string, appLanguage: string,
                                 tokenize: Tokenizer, chunkIds: IdSource, errorIds: nat -> IdSource,
                                 apiKey: string, complete: Prompt -> Result<string, string>,
                                 parse: string -> Option<Json>)
    requires var s := tokenize(transcription); s != [] && WordCount(s[0]) > DefaultMaxTokens
    ensures var chunks := ChunkSentences(transcription, tokenize, DefaultMaxTokens, chunkIds);
            var results := ResultsOf(chunks, targetLanguage, appLanguage, tokenize, errorIds, apiKey, complete, parse);
            && chunks != [] && chunks[0].text == []
            && results[0] == ChunkFailed(EmptyChunkText)
            && Successful(results) == Successful(results[1..])
  {
    var sentences := tokenize(transcription);
    PackEmptyChunk(sentences, DefaultMaxTokens, WordCount);
    var chunks := ChunkSentences(transcription, tokenize, DefaultMaxTokens, chunkIds);
    var results := ResultsOf(chunks, targetLanguage, appLanguage, tokenize, errorIds, apiKey, complete, parse);
    assert chunks[0].text == JoinSpace([]);
    SuccessfulSkipsFailedHead(results);
  }
}
