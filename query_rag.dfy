/** Query-time logic of src/query_rag.py around the rank fusion: the
    conversational query rewrite, the selection of the top fused chunks with
    their citation sources, the prompt, the filter over the streamed answer,
    and `evaluate`, which runs them in order.

    The generative model, the embedding model, FAISS and BM25 are
    parameters: `model` maps a rewrite prompt to the model's reply (None for
    a falsy response object), `stream` maps the answer prompt to the finite
    sequence of stream units, and `denseSearch`/`sparseSearch` map the query
    to the id lists the two retrievers return. */
module QueryRag {
  import opened Common
  import RankFusion

  /** One chat-history entry, `{"role": ..., "text": ...}`. */
  datatype Turn = Turn(role: string, text: string)

  /** A row of the chunk metadata, `{"text": ..., "source": ...}`. */
  datatype Chunk = Chunk(text: string, source: string)

  /** A turn as one memory line: the role, a colon and a space, the text. */
  function FormatTurn(t: Turn): string
  {
    t.role + ": " + t.text
  }

  function FormatTurns(history: seq<Turn>): seq<string>
  {
    seq(|history|, i requires 0 <= i < |history| => FormatTurn(history[i]))
  }

  // ---------------------------------------------------------------------
  // rewrite_query

  /** The negative slice of the last `n` entries, for a positive `n`: all
      of them when there are fewer. */
  function LastTurns(history: seq<Turn>, n: nat): (r: seq<Turn>)
    requires n > 0
    ensures |r| == if |history| < n then |history| else n
    ensures forall i :: 0 <= i < |r| ==> r[i] == history[|history| - |r| + i]
  {
    if |history| <= n then history else history[|history| - n..]
  }

  /** The memory string of the rewrite prompt: the last two exchanges. With
      four turns or fewer it is the memory block of the answer prompt. */
  function RecentMemory(history: seq<Turn>): (r: string)
    ensures history == [] ==> r == ""
    ensures history != [] && |history| <= 4 ==> r == MemoryBlock(history)
  {
    Join(FormatTurns(LastTurns(history, 4)), "\n")
  }

  const RewriteInstruction := "Given the following conversation history and a follow up question, rephrase the follow up question to be a standalone question.\n"

  const ChatHistoryLabel := "    Chat History:\n    "
  const FollowUpLabel := "\n    \n    Follow Up Input: "
  const StandaloneLabel := "\n    Standalone question:"

  /** The rewrite prompt: the instruction, then the memory in the history
      slot, then the question in the follow-up slot, which closes it. */
  function RewritePrompt(question: string, memory: string): (p: string)
    ensures var head := RewriteInstruction + ChatHistoryLabel + memory;
      |head| <= |p| && p[..|head|] == head
    ensures var tail := FollowUpLabel + question + StandaloneLabel;
      |tail| <= |p| && p[|p| - |tail|..] == tail
  {
    var head := RewriteInstruction + ChatHistoryLabel + memory;
    var tail := FollowUpLabel + question + StandaloneLabel;
    var p := head + tail;
    assert p[..|head|] == head && p[|p| - |tail|..] == tail;
    p
  }

  /** The rewrite prompt carries the question: for the same memory, two
      questions give two prompts. */
  lemma RewritePromptQuestion(memory: string, q1: string, q2: string)
    requires RewritePrompt(q1, memory) == RewritePrompt(q2, memory)
    ensures q1 == q2
  {
    var head := RewriteInstruction + ChatHistoryLabel + memory;
    var p := RewritePrompt(q1, memory);
    assert p == head + (FollowUpLabel + q1 + StandaloneLabel);
    assert p == head + (FollowUpLabel + q2 + StandaloneLabel);
    assert FollowUpLabel + q1 + StandaloneLabel == p[|head|..] == FollowUpLabel + q2 + StandaloneLabel;
    assert q1 == (FollowUpLabel + q1 + StandaloneLabel)[|FollowUpLabel|..|FollowUpLabel| + |q1|];
    assert q2 == (FollowUpLabel + q2 + StandaloneLabel)[|FollowUpLabel|..|FollowUpLabel| + |q2|];
  }

  /** The standalone query and the prompts sent to the model to get it. */
  datatype Rewrite = Rewrite(query: string, prompts: seq<string>)

  /** The model was asked once and its response has non-empty text. */
  predicate Answered(prompts: seq<string>, model: string -> Option<string>)
  {
    |prompts| == 1 && model(prompts[0]).Some? && model(prompts[0]).value != []
  }

  /** `rewrite_query(question, chat_history, model)`: without history the
      question is used as it is and the model is not asked; otherwise the
      model is asked once, with the last turns as memory, and its stripped
      text replaces the question unless the response has no text. */
  function RewriteQuery(question: string, history: seq<Turn>, model: string -> Option<string>): (r: Rewrite)
    ensures history == [] <==> r.prompts == []
    ensures history != [] ==> r.prompts == [RewritePrompt(question, RecentMemory(history))]
    ensures Answered(r.prompts, model) ==> r.query == Strip(model(r.prompts[0]).value)
    ensures !Answered(r.prompts, model) ==> r.query == question
  {
    if history == [] then Rewrite(question, [])
    else
      var prompt := RewritePrompt(question, RecentMemory(history));
      var reply := model(prompt);
      if reply.Some? && reply.value != [] then Rewrite(Strip(reply.value), [prompt])
      else Rewrite(question, [prompt])
  }

  /** Turns older than the last four never reach the rewrite prompt. */
  lemma RecentMemoryWindow(older: seq<Turn>, recent: seq<Turn>)
    requires |recent| >= 4
    ensures RecentMemory(older + recent) == RecentMemory(recent)
  {
    var all := older + recent;
    assert all[|all| - 4..] == recent[|recent| - 4..];
  }

  /** A non-empty reply that is only whitespace is truthy, so it is
      stripped to the empty string rather than replaced by the question. */
  lemma WhitespaceReplyGivesEmptyQuery(question: string, history: seq<Turn>, model: string -> Option<string>,
                                       reply: string)
    requires history != []
    requires model(RewritePrompt(question, RecentMemory(history))) == Some(reply)
    requires reply != [] && AllSpace(reply)
    ensures RewriteQuery(question, history, model).query == ""
  {
    StripAllSpace(reply);
  }

  // ---------------------------------------------------------------------
  // Context assembly: lines 85-98 of `evaluate`.

  /** `fused_indices[:4]`. */
  function TopK(fused: seq<int>): (r: seq<int>)
    ensures |r| == if |fused| < 4 then |fused| else 4
    ensures r == fused[..|r|]
  {
    if |fused| <= 4 then fused else fused[..4]
  }

  /** `metadata[idx]` with Python list indexing: a negative index counts
      from the end, any other index out of range raises IndexError (None). */
  function Lookup(metadata: seq<Chunk>, idx: int): (r: Option<Chunk>)
    ensures r.Some? <==> -|metadata| <= idx < |metadata|
    ensures r.Some? ==> r.value == metadata[if idx < 0 then |metadata| + idx else idx]
  {
    if 0 <= idx < |metadata| then Some(metadata[idx])
    else if -|metadata| <= idx < 0 then Some(metadata[|metadata| + idx])
    else None
  }

  const SourceOpen := "[Source: "

  /** A chunk as one context block: a source header line, then the text. */
  function SourceBlock(c: Chunk): string
  {
    SourceOpen + c.source + "]\n" + c.text
  }

  /** The length of the prefix of `s` before the first `c` (all of `s` when
      there is none). */
  function Until(s: string, c: char): (n: nat)
    ensures n <= |s|
  {
    if s == [] || s[0] == c then 0 else 1 + Until(s[1..], c)
  }

  lemma {:induction false} UntilFirst(a: string, c: char, rest: string)
    requires c !in a
    ensures Until(a + [c] + rest, c) == |a|
    decreases |a|
  {
    if a != [] {
      assert (a + [c] + rest)[1..] == a[1..] + [c] + rest;
      UntilFirst(a[1..], c, rest);
    }
  }

  /** Reads a context block back into its chunk: the header up to the first
      `]`, the newline, then the text. */
  function ReadBlock(b: string): Option<Chunk>
  {
    if |b| < |SourceOpen| || b[..|SourceOpen|] != SourceOpen then None
    else
      var rest := b[|SourceOpen|..];
      var n := Until(rest, ']');
      if n + 1 < |rest| && rest[n + 1] == '\n' then Some(Chunk(rest[n + 2..], rest[..n])) else None
  }

  /** A context block reads back to its chunk whenever the source has no
      `]`. */
  lemma SourceBlockReadsBack(c: Chunk)
    requires ']' !in c.source
    ensures ReadBlock(SourceBlock(c)) == Some(c)
  {
    var b := SourceBlock(c);
    var rest := c.source + [']'] + ("\n" + c.text);
    assert b == SourceOpen + rest;
    assert b[..|SourceOpen|] == SourceOpen && b[|SourceOpen|..] == rest;
    UntilFirst(c.source, ']', "\n" + c.text);
    assert rest[..|c.source|] == c.source && rest[|c.source| + 1] == '\n';
    assert rest[|c.source| + 2..] == c.text;
  }

  function SourcesOf(chunks: seq<Chunk>): seq<string>
  {
    seq(|chunks|, i requires 0 <= i < |chunks| => chunks[i].source)
  }

  /** The chunks the ids of `ids` name, when every lookup succeeds. */
  ghost predicate Selects(ids: seq<int>, metadata: seq<Chunk>, chunks: seq<Chunk>)
  {
    |chunks| == |ids| && forall i :: 0 <= i < |ids| ==> Lookup(metadata, ids[i]) == Some(chunks[i])
  }

  /** The context blocks of `chunks`, in order. */
  function Blocks(chunks: seq<Chunk>): seq<string>
  {
    seq(|chunks|, i requires 0 <= i < |chunks| => SourceBlock(chunks[i]))
  }

  /** The looked-up chunks with the context blocks and the citation list
      built from them. */
  datatype Selection = Selection(chunks: seq<Chunk>, blocks: seq<string>, sources: seq<string>)

  /** `selection` is what the loop builds from the top ids. */
  ghost predicate SelectionOf(ids: seq<int>, metadata: seq<Chunk>, selection: Selection)
  {
    && Selects(ids, metadata, selection.chunks)
    && selection.blocks == Blocks(selection.chunks)
    && selection.sources == FirstSeen(SourcesOf(selection.chunks))
  }

  /** The id at `pos` is the first of `ids` that is not a valid index. */
  predicate FirstMissing(ids: seq<int>, metadata: seq<Chunk>, pos: nat)
  {
    && pos < |ids|
    && Lookup(metadata, ids[pos]).None?
    && forall i :: 0 <= i < pos ==> Lookup(metadata, ids[i]).Some?
  }

  /** The loop over `top_k_indices` that appends to `top_chunks` and, when
      it is new, the chunk's source to `sources`. A failed lookup is the
      IndexError the loop raises; its error value is the position of the
      offending id. */
  method SelectChunks(ids: seq<int>, metadata: seq<Chunk>) returns (r: Result<Selection, nat>)
    ensures r.Failure? ==> FirstMissing(ids, metadata, r.error)
    ensures r.Success? ==> SelectionOf(ids, metadata, r.value)
  {
    var blocks: seq<string> := [];
    var sources: seq<string> := [];
    var chunks: seq<Chunk> := [];
    for n := 0 to |ids|
      invariant SelectionOf(ids[..n], metadata, Selection(chunks, blocks, sources))
    {
      var entry := Lookup(metadata, ids[n]);
      if entry.None? {
        SelectedPrefix(ids, metadata, chunks, n);
        return Failure(n);
      }
      var chunk := entry.value;
      ghost var before := Selection(chunks, blocks, sources);
      blocks := blocks + [SourceBlock(chunk)];
      if chunk.source !in sources {
        sources := sources + [chunk.source];
      }
      chunks := chunks + [chunk];
      SelectStep(ids, metadata, before, n, chunk, Selection(chunks, blocks, sources));
    }
    assert ids[..|ids|] == ids;
    return Success(Selection(chunks, blocks, sources));
  }

  lemma SelectedPrefix(ids: seq<int>, metadata: seq<Chunk>, chunks: seq<Chunk>, n: nat)
    requires n < |ids| && Selects(ids[..n], metadata, chunks)
    requires Lookup(metadata, ids[n]).None?
    ensures FirstMissing(ids, metadata, n)
  {
    assert forall i :: 0 <= i < n ==> ids[..n][i] == ids[i];
  }

  /** One iteration of the selection loop. */
  lemma SelectStep(ids: seq<int>, metadata: seq<Chunk>, before: Selection, n: nat, chunk: Chunk, after: Selection)
    requires n < |ids| && SelectionOf(ids[..n], metadata, before)
    requires Lookup(metadata, ids[n]) == Some(chunk)
    requires after.chunks == before.chunks + [chunk]
    requires after.blocks == before.blocks + [SourceBlock(chunk)]
    requires after.sources == if chunk.source in before.sources then before.sources else before.sources + [chunk.source]
    ensures SelectionOf(ids[..n + 1], metadata, after)
  {
    assert ids[..n + 1] == ids[..n] + [ids[n]];
    assert SourcesOf(after.chunks) == SourcesOf(before.chunks) + [chunk.source];
    FirstSeenSnocString(SourcesOf(before.chunks), chunk.source);
  }

  lemma FirstSeenSnocString(s: seq<string>, x: string)
    ensures FirstSeen(s + [x]) == if x in FirstSeen(s) then FirstSeen(s) else FirstSeen(s) + [x]
  {
    assert (s + [x])[..|s|] == s;
  }

  /** The citation list holds each selected source once, every selected
      source, nothing else, in the order the sources first occur. */
  lemma CitationList(chunks: seq<Chunk>)
    ensures var sources := FirstSeen(SourcesOf(chunks));
      && NoDuplicates(sources)
      && (forall i :: 0 <= i < |chunks| ==> chunks[i].source in sources)
      && (forall s :: s in sources ==> exists i :: 0 <= i < |chunks| && chunks[i].source == s)
      && (forall i, j :: 0 <= i < j < |sources| ==>
            IndexOf(SourcesOf(chunks), sources[i]) < IndexOf(SourcesOf(chunks), sources[j]))
  {
    var all := SourcesOf(chunks);
    var sources := FirstSeen(all);
    forall i | 0 <= i < |chunks| ensures chunks[i].source in sources {
      var s := all[i];
      assert s in all;
    }
    forall s | s in sources ensures exists i :: 0 <= i < |chunks| && chunks[i].source == s {
      var i := IndexOf(all, s);
      assert chunks[i].source == s;
    }
    forall i, j | 0 <= i < j < |sources|
      ensures IndexOf(all, sources[i]) < IndexOf(all, sources[j])
    {
      var x, y := sources[i], sources[j];
      assert x in sources && y in sources;
      FirstSeenOrder(all, x, y);
      IndexOfNoDuplicates(sources, i);
      IndexOfNoDuplicates(sources, j);
    }
  }

  const BlockRule := "\n\n---\n\n"

  /** The context: the blocks separated by a horizontal rule. No blocks
      give an empty context, one block is the context on its own. */
  function Context(blocks: seq<string>): (r: string)
    ensures blocks == [] ==> r == ""
    ensures |blocks| == 1 ==> r == blocks[0]
  {
    Join(blocks, BlockRule)
  }

  /** Each further block follows a rule at the end of the context. */
  lemma ContextAppend(blocks: seq<string>, b: string)
    requires blocks != []
    ensures Context(blocks + [b]) == Context(blocks) + BlockRule + b
  {
    JoinSnoc(blocks, b, BlockRule);
  }

  const NoMemory := "No previous conversation found."

  /** The memory block of the answer prompt: every turn, in order. It is the
      no-memory note exactly when there is no history, since a turn line
      always holds a ':' and the note does not. */
  function MemoryBlock(history: seq<Turn>): (r: string)
    ensures r == NoMemory <==> history == []
  {
    if history == [] then NoMemory
    else
      var r := Join(FormatTurns(history), "\n");
      TurnLinesHaveColon(history, r);
      r
  }

  lemma TurnLinesHaveColon(history: seq<Turn>, r: string)
    requires history != [] && r == Join(FormatTurns(history), "\n")
    ensures r != NoMemory
  {
    var first := FormatTurn(history[0]);
    assert FormatTurns(history)[0] == first;
    JoinStartsWithFirst(FormatTurns(history), "\n");
    var i := |history[0].role|;
    assert first[i] == ':';
    assert r[i] == first[i];
    var x := r[i];
    assert x in r;
    assert ':' !in NoMemory;
  }

  /** Each further turn adds one line at the end of the memory block. */
  lemma MemoryBlockAppend(history: seq<Turn>, t: Turn)
    requires history != []
    ensures MemoryBlock(history + [t]) == MemoryBlock(history) + "\n" + FormatTurn(t)
  {
    assert FormatTurns(history + [t]) == FormatTurns(history) + [FormatTurn(t)];
    JoinSnoc(FormatTurns(history), FormatTurn(t), "\n");
  }

  const AssistantRole := "    You are a helpful assistant answering student admin questions at Monash University.\n"
  const AnswerInstruction := "    Answer the following question using ONLY the context provided below. \n"
  const CitationInstruction := "    Make sure to explicitly cite the source filenames at the end of your response, e.g., \"Sources: course-dates.clean.txt, fees.clean.txt\".\n"

  const ContextHeader := "\n" + AssistantRole + "\n" + AnswerInstruction + CitationInstruction
    + "    -------------------\n    ### Context:\n    "
  const MemoryHeader := "\n\n    -------------------\n    ### Memory:\n    "
  const QuestionHeader := "\n\n    -------------------\n\n    ### User Question:\n    "
  const PromptEnd := "\n    "

  /** The answer prompt: the fixed instructions, then the context, memory
      and question slots, each behind its header; the question slot closes
      the prompt. */
  function AnswerPrompt(context: string, memory: string, question: string): string
  {
    ContextHeader + context + (MemoryHeader + memory) + (QuestionHeader + question + PromptEnd)
  }

  /** Whatever the inputs, the prompt starts with the instructions and the
      context, holds the memory right behind its header, and ends with the
      question slot. */
  lemma AnswerPromptSlots(context: string, memory: string, question: string)
    ensures var p := AnswerPrompt(context, memory, question); var head := ContextHeader + context;
      |head| <= |p| && p[..|head|] == head
    ensures var p := AnswerPrompt(context, memory, question); var at := |ContextHeader| + |context| + |MemoryHeader|;
      at + |memory| <= |p| && p[at..at + |memory|] == memory
    ensures var p := AnswerPrompt(context, memory, question); var tail := QuestionHeader + question + PromptEnd;
      |tail| <= |p| && p[|p| - |tail|..] == tail
  {
    Slots(ContextHeader + context, MemoryHeader, memory, QuestionHeader + question + PromptEnd);
  }

  /** The three parts of `head + (header + slot) + tail` sit where they
      should. */
  lemma Slots(head: string, header: string, slot: string, tail: string)
    ensures var p := head + (header + slot) + tail;
      && |head| <= |p| && p[..|head|] == head
      && |head| + |header| + |slot| <= |p| && p[|head| + |header|..|head| + |header| + |slot|] == slot
      && |tail| <= |p| && p[|p| - |tail|..] == tail
  {
    var p := head + (header + slot) + tail;
    assert p[|head| + |header|..|head| + |header| + |slot|] == (header + slot)[|header|..];
  }

  // ---------------------------------------------------------------------
  // The stream loop: lines 122-128 of `evaluate`.

  /** An element of a stream unit's `parts`: one with a `text` attribute,
      one without, or one whose `text` raises. */
  datatype Part = TextPart(text: string) | NoTextPart | FaultyPart

  /** A stream unit: one with `parts`, one without a `parts` attribute, or
      one whose `parts` raises. */
  datatype Fragment = Fragment(parts: seq<Part>) | NoParts | FaultyFragment

  /** The concatenated texts of the parts that have a `text`; None when
      reading a `text` raises. */
  function PartsText(parts: seq<Part>): (r: Option<string>)
    ensures r.None? <==> exists i :: 0 <= i < |parts| && parts[i].FaultyPart?
  {
    if parts == [] then Some("")
    else
      var rest := PartsText(parts[1..]);
      assert forall i :: 0 < i < |parts| ==> parts[i] == parts[1..][i - 1];
      match parts[0]
      case FaultyPart => None
      case NoTextPart => rest
      case TextPart(t) => if rest.Some? then Some(t + rest.value) else None
  }

  /** The stream unit yields text: it has a non-empty `parts` and no part
      raises. */
  predicate Yields(f: Fragment)
  {
    f.Fragment? && f.parts != [] && PartsText(f.parts).Some?
  }

  /** The texts the stream yields: one per yielding unit, in order. No more
      texts than units, and as many exactly when every unit yields. */
  function Yielded(fragments: seq<Fragment>): (r: seq<string>)
    ensures |r| <= |fragments|
    ensures |r| == |fragments| <==> forall i :: 0 <= i < |fragments| ==> Yields(fragments[i])
  {
    if fragments == [] then []
    else
      var n := |fragments| - 1;
      var f := fragments[n];
      var init := fragments[..n];
      assert forall i :: 0 <= i < n ==> init[i] == fragments[i];
      Yielded(init) + (if Yields(f) then [PartsText(f.parts).value] else [])
  }

  /** The generator loop of `evaluate`: every unit is tried on its own, and
      one that raises is skipped (the warning it prints is left out). */
  method StreamAnswer(fragments: seq<Fragment>) returns (out: seq<string>)
    ensures out == Yielded(fragments)
  {
    out := [];
    for n := 0 to |fragments|
      invariant out == Yielded(fragments[..n])
    {
      assert fragments[..n + 1][..n] == fragments[..n];
      match fragments[n]
      case FaultyFragment =>
      case NoParts =>
      case Fragment(parts) =>
        if parts != [] {
          var text := PartsText(parts);
          if text.Some? {
            out := out + [text.value];
          }
        }
    }
    assert fragments[..|fragments|] == fragments;
  }

  lemma {:induction false} YieldedAppend(a: seq<Fragment>, b: seq<Fragment>)
    ensures Yielded(a + b) == Yielded(a) + Yielded(b)
    decreases |b|
  {
    if b != [] {
      var n := |b| - 1;
      assert a + b == (a + b[..n]) + [b[n]];
      assert (a + b)[..|a + b| - 1] == a + b[..n];
      YieldedAppend(a, b[..n]);
    } else {
      assert a + b == a;
    }
  }

  /** One malformed stream unit anywhere in the stream changes nothing in
      what the others yield. */
  lemma SkipMalformed(before: seq<Fragment>, bad: Fragment, after: seq<Fragment>)
    requires !Yields(bad)
    ensures Yielded(before + [bad] + after) == Yielded(before + after)
  {
    YieldedAppend(before + [bad], after);
    YieldedAppend(before, [bad]);
    YieldedAppend(before, after);
    assert [bad][..0] == [];
  }

  /** A unit whose parts all lack text still yields, and yields "". */
  lemma TextlessUnitYieldsEmpty()
    ensures Yielded([Fragment([NoTextPart])]) == [""]
  {
    assert [Fragment([NoTextPart])][..0] == [];
    assert [NoTextPart][1..] == [];
  }

  // ---------------------------------------------------------------------
  // evaluate

  /** What one call of `evaluate` produces: the standalone query used for
      retrieval, the fused ids, the selected chunks with their blocks and
      citation list, the prompt, and the texts the generator yields. */
  datatype Answer = Answer(standalone: string, fused: seq<int>, selection: Selection,
                           prompt: string, fragments: seq<string>)

  /** The IndexError of the selection loop: the fused ids and the position
      in the top ids of the one that is not a valid index. */
  datatype Missing = Missing(fused: seq<int>, position: nat)

  const RrfK: nat := 60

  /** `evaluate(question, chat_history)`, with the loading of the indices
      and models replaced by the parameters. Retrieval runs on the
      rewritten query; the prompt asks the original question. */
  method Evaluate(question: string, history: seq<Turn>, model: string -> Option<string>,
                  denseSearch: string -> seq<int>, sparseSearch: string -> seq<int>,
                  metadata: seq<Chunk>, stream: string -> seq<Fragment>)
    returns (r: Result<Answer, Missing>)
    ensures r.Success? ==>
      var q := r.value.standalone;
      && q == RewriteQuery(question, history, model).query
      && RankFusion.IsFusion(denseSearch(q), sparseSearch(q), RrfK, r.value.fused)
      && SelectionOf(TopK(r.value.fused), metadata, r.value.selection)
      && r.value.prompt == AnswerPrompt(Context(r.value.selection.blocks), MemoryBlock(history), question)
      && r.value.fragments == Yielded(stream(r.value.prompt))
    ensures r.Failure? ==>
      var q := RewriteQuery(question, history, model).query;
      && RankFusion.IsFusion(denseSearch(q), sparseSearch(q), RrfK, r.error.fused)
      && FirstMissing(TopK(r.error.fused), metadata, r.error.position)
  {
    var standalone := RewriteQuery(question, history, model).query;
    var denseRanks := denseSearch(standalone);
    var sparseRanks := sparseSearch(standalone);
    var fused := RankFusion.ReciprocalRankFusion(denseRanks, sparseRanks, RrfK);
    var top := TopK(fused);
    var selection := SelectChunks(top, metadata);
    if selection.Failure? {
      return Failure(Missing(fused, selection.error));
    }
    var context := Context(selection.value.blocks);
    var memory := MemoryBlock(history);
    var prompt := AnswerPrompt(context, memory, question);
    var fragments := StreamAnswer(stream(prompt));
    return Success(Answer(standalone, fused, selection.value, prompt, fragments));
  }
}
