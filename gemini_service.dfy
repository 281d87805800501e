/**
 * Chat request assembly of `GeminiService`: the ordered contents built from the history and
 * the current message, the history and system-prompt defaults of `stream_chat`, and the chunks
 * its generator yields (empty texts dropped, one error chunk after a failure).
 *
 * The Gemini client is abstract: `Provider` maps a request to the chunk texts the stream
 * delivers and, if it raised, the exception's message.
 */
module GeminiService {
  import opened Wrappers

  /** One history entry: the dictionary's "role" and "content" values. */
  datatype HistoryEntry = HistoryEntry(role: string, content: string)

  /** A `types.Content` holding a single text part. */
  datatype Content = Content(role: string, text: string)

  /** The service's settings, fixed when it is constructed. */
  datatype Service = Service(model: string, systemPrompt: string)

  const Temperature: real := 0.7

  /** The arguments of `generate_content_stream`. */
  datatype Request = Request(model: string, contents: seq<Content>, systemInstruction: string, temperature: real)

  /** What the stream delivered: each chunk's `text` (`None` when absent), then the failure, if any. */
  datatype ProviderRun = ProviderRun(chunks: seq<Option<string>>, failure: Option<string>)

  type Provider = Request -> ProviderRun

  /** `contents` is the history in order, each entry as (role, content), followed by the user's message. */
  ghost predicate ContentsOf(contents: seq<Content>, message: string, history: seq<HistoryEntry>) {
    |contents| == |history| + 1
    && (forall i :: 0 <= i < |history| ==> contents[i] == Content(history[i].role, history[i].content))
    && contents[|history|] == Content("user", message)
  }

  /** `_build_contents`. */
  method BuildContents(message: string, history: seq<HistoryEntry>) returns (contents: seq<Content>)
    ensures |contents| == |history| + 1
    ensures forall i :: 0 <= i < |history| ==>
              contents[i].role == history[i].role && contents[i].text == history[i].content
    ensures contents[|history|].role == "user" && contents[|history|].text == message
    ensures ContentsOf(contents, message, history)
  {
    contents := [];
    for i := 0 to |history|
      invariant |contents| == i
      invariant forall k :: 0 <= k < i ==> contents[k] == Content(history[k].role, history[k].content)
    {
      contents := contents + [Content(history[i].role, history[i].content)];
    }
    contents := contents + [Content("user", message)];
  }

  /** `history` defaults to the empty list when it is `None`. */
  function HistoryOrEmpty(history: Option<seq<HistoryEntry>>): (h: seq<HistoryEntry>)
    ensures history.None? ==> h == []
    ensures history.Some? ==> h == history.value
  {
    history.GetOr([])
  }

  /** The system instruction: the caller's prompt whenever one is given (even ""), else the service's. */
  function PromptToUse(service: Service, systemPrompt: Option<string>): (p: string)
    ensures systemPrompt.Some? ==> p == systemPrompt.value
    ensures systemPrompt.None? ==> p == service.systemPrompt
  {
    if systemPrompt.Some? then systemPrompt.value else service.systemPrompt
  }

  /** The texts of the chunks, in order, with absent and empty texts dropped (`if chunk.text:`). */
  function NonEmptyTexts(chunks: seq<Option<string>>): (r: seq<string>)
    ensures |r| <= |chunks|
    ensures forall k :: 0 <= k < |r| ==> r[k] != ""
  {
    if chunks == [] then []
    else
      var last := chunks[|chunks| - 1];
      NonEmptyTexts(chunks[..|chunks| - 1]) + (if last.Some? && last.value != "" then [last.value] else [])
  }

  /** The chunk yielded after a failure: the exception's message in brackets. */
  function ErrorChunk(msg: string): (c: string)
    ensures |c| == |msg| + 11 && c[..10] == "\n\n[Error: " && c[|c| - 1] == ']'
    ensures c[10..|c| - 1] == msg
  {
    "\n\n[Error: " + msg + "]"
  }

  /** The chunks the generator yields over one provider run. */
  function Yielded(run: ProviderRun): (r: seq<string>)
    ensures forall k :: 0 <= k < |r| ==> r[k] != ""
    ensures run.failure.None? ==> |r| <= |run.chunks|
    ensures run.failure.Some? ==> 0 < |r| <= |run.chunks| + 1 && r[|r| - 1] == ErrorChunk(run.failure.value)
  {
    NonEmptyTexts(run.chunks) + (if run.failure.Some? then [ErrorChunk(run.failure.value)] else [])
  }

  /** `stream_chat`: the request it sends and the chunks it yields. */
  method StreamChat(service: Service, provider: Provider, message: string,
                    history: Option<seq<HistoryEntry>>, systemPrompt: Option<string>)
    returns (request: Request, yielded: seq<string>)
    ensures request.model == service.model && request.temperature == Temperature
    ensures ContentsOf(request.contents, message, HistoryOrEmpty(history))
    ensures request.systemInstruction == PromptToUse(service, systemPrompt)
    ensures yielded == Yielded(provider(request))
  {
    var entries := HistoryOrEmpty(history);
    var contents := BuildContents(message, entries);
    var promptToUse := PromptToUse(service, systemPrompt);
    request := Request(service.model, contents, promptToUse, Temperature);
    var run := provider(request);
    yielded := [];
    for i := 0 to |run.chunks|
      invariant yielded == NonEmptyTexts(run.chunks[..i])
    {
      assert run.chunks[..i + 1][..i] == run.chunks[..i];
      var text := run.chunks[i];
      if text.Some? && text.value != "" {
        yielded := yielded + [text.value];
      }
    }
    assert run.chunks[..|run.chunks|] == run.chunks;
    if run.failure.Some? {
      yielded := yielded + [ErrorChunk(run.failure.value)];
    }
  }

  // ---- properties of the yielded stream ----

  /** Filtering is compositional: a stream split anywhere filters to the two parts' filters. */
  lemma {:induction false} NonEmptyTextsAppend(a: seq<Option<string>>, b: seq<Option<string>>)
    ensures NonEmptyTexts(a + b) == NonEmptyTexts(a) + NonEmptyTexts(b)
  {
    if b == [] {
      assert a + b == a;
    } else {
      var init := b[..|b| - 1];
      assert (a + b)[..|a + b| - 1] == a + init;
      NonEmptyTextsAppend(a, init);
    }
  }

  /** Every non-empty text the provider delivered is yielded. */
  lemma {:induction false} NonEmptyChunkIsYielded(chunks: seq<Option<string>>, k: nat)
    requires k < |chunks| && chunks[k].Some? && chunks[k].value != ""
    ensures chunks[k].value in NonEmptyTexts(chunks)
  {
    var pre := chunks[..k + 1];
    assert pre[..|pre| - 1] == chunks[..k];
    assert NonEmptyTexts(pre) == NonEmptyTexts(chunks[..k]) + [chunks[k].value];
    NonEmptyTextsAppend(pre, chunks[k + 1..]);
    assert pre + chunks[k + 1..] == chunks;
  }

  /** Nothing is yielded that the provider did not deliver. */
  lemma {:induction false} YieldedTextIsDelivered(chunks: seq<Option<string>>)
    ensures forall t :: t in NonEmptyTexts(chunks) ==> Some(t) in chunks
  {
    if chunks != [] {
      var init := chunks[..|chunks| - 1];
      YieldedTextIsDelivered(init);
      forall t | t in NonEmptyTexts(chunks) ensures Some(t) in chunks {
        if t in NonEmptyTexts(init) {
          var k :| 0 <= k < |init| && init[k] == Some(t);
          assert chunks[k] == Some(t);
        } else {
          assert chunks[|chunks| - 1] == Some(t);
        }
      }
    }
  }

  /** The concatenation of all the text one would read from the provider's chunks. */
  function FullText(chunks: seq<Option<string>>): string {
    if chunks == [] then ""
    else FullText(chunks[..|chunks| - 1]) + chunks[|chunks| - 1].GetOr("")
  }

  function Concat(texts: seq<string>): string {
    if texts == [] then "" else Concat(texts[..|texts| - 1]) + texts[|texts| - 1]
  }

  lemma {:induction false} ConcatAppend(a: seq<string>, b: seq<string>)
    ensures Concat(a + b) == Concat(a) + Concat(b)
  {
    if b == [] {
      assert a + b == a;
    } else {
      var init := b[..|b| - 1];
      assert (a + b)[..|a + b| - 1] == a + init;
      ConcatAppend(a, init);
      assert Concat(a + b) == (Concat(a) + Concat(init)) + b[|b| - 1];
    }
  }

  /** Dropping empty chunks loses no text: the yielded texts spell out the whole response. */
  lemma {:induction false} FilteringKeepsText(chunks: seq<Option<string>>)
    ensures Concat(NonEmptyTexts(chunks)) == FullText(chunks)
  {
    if chunks != [] {
      var init, last := chunks[..|chunks| - 1], chunks[|chunks| - 1];
      FilteringKeepsText(init);
      var tail := if last.Some? && last.value != "" then [last.value] else [];
      ConcatAppend(NonEmptyTexts(init), tail);
      if tail != [] {
        assert Concat(tail) == Concat([]) + last.value;
      }
    }
  }

  /** A successful run yields exactly the filtered chunks; a failed one adds the single error chunk at the end. */
  lemma YieldedShape(run: ProviderRun)
    ensures run.failure.None? ==> Yielded(run) == NonEmptyTexts(run.chunks)
    ensures run.failure.Some? ==>
              |Yielded(run)| == |NonEmptyTexts(run.chunks)| + 1
              && Yielded(run)[..|Yielded(run)| - 1] == NonEmptyTexts(run.chunks)
              && Yielded(run)[|Yielded(run)| - 1] == ErrorChunk(run.failure.value)
  {
  }

  /** What was streamed before a failure stays streamed: a cut-short run yields a prefix of the full run's chunks, then the error. */
  lemma FailureKeepsDeliveredChunks(chunks: seq<Option<string>>, more: seq<Option<string>>, msg: string)
    ensures Yielded(ProviderRun(chunks, Some(msg))) == NonEmptyTexts(chunks) + [ErrorChunk(msg)]
    ensures NonEmptyTexts(chunks) <= NonEmptyTexts(chunks + more)
  {
    NonEmptyTextsAppend(chunks, more);
  }

  /** An omitted history and an empty one build the same contents; an empty prompt is used as given. */
  lemma Defaults(service: Service, contents: seq<Content>, message: string)
    ensures ContentsOf(contents, message, HistoryOrEmpty(None)) <==> contents == [Content("user", message)]
    ensures PromptToUse(service, Some("")) == ""
  {
    if ContentsOf(contents, message, HistoryOrEmpty(None)) {
      assert |contents| == 1;
    }
  }
}
