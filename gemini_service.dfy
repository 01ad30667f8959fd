/** The chat integration of services/gemini-service.js: retrieved memories
    become a context block appended to the user's message, the chat model
    answers, and the exchange is written back as two memories. Retrieval,
    the model's reply, the clock and the two saves are oracles passed in. */
module GeminiService {
  import opened Common
  import opened Json
  import opened AiMemoryTable

  datatype GenerationConfig = GenerationConfig(maxOutputTokens: nat, temperature: real, topP: real, topK: nat)

  /** `config.gemini`'s generation settings, used for every chat session. */
  const DefaultGenerationConfig := GenerationConfig(2048, 0.7, 0.8, 40)

  const MemoryPrefix := "Memory: "
  const ContextHeader := "\n\nRelevant context:\n"
  const ChatErrorPrefix := "Failed to process chat message: "
  const UserMessageType := "user_message"
  const AssistantResponseType := "assistant_response"

  function MemoryLine(m: Match): (line: string)
    ensures |line| == |MemoryPrefix| + |m.content|
    ensures line[..|MemoryPrefix|] == MemoryPrefix
    ensures line[|MemoryPrefix|..] == m.content
  {
    MemoryPrefix + m.content
  }

  /** `relevantMemories.map(memory => `Memory: ${memory.content}`).join('\n')`. */
  function MemoryContext(memories: seq<Match>): (block: string)
    ensures block == "" <==> memories == []
  {
    if |memories| == 0 then ""
    else if |memories| == 1 then MemoryLine(memories[0])
    else MemoryContext(memories[..|memories| - 1]) + "\n" + MemoryLine(memories[|memories| - 1])
  }

  /** Total length of the memory lines. */
  function LinesLength(memories: seq<Match>): nat {
    if |memories| == 0 then 0
    else LinesLength(memories[..|memories| - 1]) + |MemoryLine(memories[|memories| - 1])|
  }

  /** The context block is the k lines joined by one newline each: its length
      is the lines' total plus k - 1, and it starts with the first line. */
  lemma {:induction false} MemoryContextShape(memories: seq<Match>)
    requires |memories| > 0
    ensures |MemoryContext(memories)| == LinesLength(memories) + |memories| - 1
    ensures MemoryLine(memories[0]) <= MemoryContext(memories)
  {
    if |memories| > 1 {
      var init := memories[..|memories| - 1];
      MemoryContextShape(init);
      assert init[0] == memories[0];
      var ctx := MemoryContext(memories);
      assert ctx == MemoryContext(init) + "\n" + MemoryLine(memories[|memories| - 1]);
      PrefixExtends(MemoryLine(memories[0]), MemoryContext(init), "\n" + MemoryLine(memories[|memories| - 1]));
    }
  }

  /** The same block built from the front: the first line, then a newline
      and the join of the rest. */
  function JoinLines(memories: seq<Match>): string {
    if |memories| == 0 then ""
    else if |memories| == 1 then MemoryLine(memories[0])
    else MemoryLine(memories[0]) + "\n" + JoinLines(memories[1..])
  }

  lemma {:induction false} JoinLinesAppend(memories: seq<Match>, m: Match)
    requires |memories| > 0
    ensures JoinLines(memories + [m]) == JoinLines(memories) + "\n" + MemoryLine(m)
  {
    var all := memories + [m];
    assert all[0] == memories[0];
    if |memories| > 1 {
      assert all[1..] == memories[1..] + [m];
      JoinLinesAppend(memories[1..], m);
      var head := MemoryLine(memories[0]) + "\n";
      assert JoinLines(all) == head + (JoinLines(memories[1..]) + "\n" + MemoryLine(m));
      assert JoinLines(memories) == head + JoinLines(memories[1..]);
    } else {
      assert all[1..] == [m];
    }
  }

  /** The block is exactly the lines joined by `'\n'`: the first line, then
      for each further memory a newline and its line. */
  lemma {:induction false} MemoryContextIsJoin(memories: seq<Match>)
    ensures MemoryContext(memories) == JoinLines(memories)
  {
    if |memories| > 1 {
      var init := memories[..|memories| - 1];
      var last := memories[|memories| - 1];
      MemoryContextIsJoin(init);
      JoinLinesAppend(init, last);
      assert init + [last] == memories;
    }
  }

  lemma PrefixExtends(a: string, b: string, c: string)
    requires a <= b
    ensures a <= b + c
  {
    assert (b + c)[..|b|] == b;
  }

  /** The retrieval-order line structure: the context for k + 1 memories is
      the context for the first k, a newline, and the last memory's line. */
  lemma {:induction false} MemoryContextAppends(memories: seq<Match>, m: Match)
    requires |memories| > 0
    ensures MemoryContext(memories + [m]) == MemoryContext(memories) + "\n" + MemoryPrefix + m.content
  {
    var all := memories + [m];
    assert all[..|all| - 1] == memories;
    assert all[|all| - 1] == m;
    var ctx := MemoryContext(memories);
    assert MemoryContext(all) == ctx + "\n" + MemoryLine(m);
    var line := MemoryLine(m);
    assert line == MemoryPrefix + m.content;
    assert (ctx + "\n") + (MemoryPrefix + m.content) == (ctx + "\n" + MemoryPrefix) + m.content;
  }

  /** `memoryContext ? `${message}\n\nRelevant context:\n${memoryContext}` : message`. */
  function EnhancedMessage(message: string, memories: seq<Match>): (m: string)
    ensures |memories| == 0 ==> m == message
    ensures |memories| > 0 ==> m == message + ContextHeader + MemoryContext(memories)
  {
    var context := MemoryContext(memories);
    if context != "" then message + ContextHeader + context else message
  }

  /** One call to `memoryService.saveMemory(content, metadata)`. */
  datatype Write = Write(content: string, metadata: Metadata)

  /** The metadata `{ type, timestamp }` of a written-back memory. */
  function Tag(kind: string, timestamp: string): (m: Metadata)
    ensures Keys(m) == ["type", "timestamp"]
  {
    [Member("type", JString(kind)), Member("timestamp", JString(timestamp))]
  }

  /** The two write-backs of a completed exchange, in order. */
  function WriteBack(message: string, reply: string, userTime: string, replyTime: string): (w: seq<Write>)
    ensures |w| == 2
  {
    [Write(message, Tag(UserMessageType, userTime)), Write(reply, Tag(AssistantResponseType, replyTime))]
  }

  /** The oracles one call of `sendMessage` consults: the retrieved memories
      (or the retrieval error), the model's reply text (or its error), the
      two timestamps, and the outcome of each save. */
  datatype World = World(
    retrieved: Result<seq<Match>, string>,
    reply: Result<string, string>,
    userTime: string, replyTime: string,
    userSave: Option<string>, replySave: Option<string>)

  /** What one `sendMessage` call does: its result, the message sent to the
      chat (if it got that far), and the memories written. */
  datatype Exchange = Exchange(result: Result<string, string>, sent: Option<string>, writes: seq<Write>)

  /** `sendMessage(message, context)`. The `context` argument is accepted and
      never read. */
  function Process(message: string, context: seq<Json>, world: World): (x: Exchange)
    ensures world.retrieved.Failure? ==>
              x == Exchange(Failure(ChatErrorPrefix + world.retrieved.error), None, [])
    ensures world.retrieved.Success? ==> x.sent == Some(EnhancedMessage(message, world.retrieved.value))
    ensures world.retrieved.Success? && world.reply.Failure? ==>
              x.result == Failure(ChatErrorPrefix + world.reply.error) && x.writes == []
    ensures world.retrieved.Success? && world.reply.Success? && world.userSave.None? && world.replySave.None? ==>
              && x.result == Success(world.reply.value)
              && x.writes == WriteBack(message, world.reply.value, world.userTime, world.replyTime)
    ensures world.retrieved.Success? && world.reply.Success? && world.userSave.Some? ==>
              x.result == Failure(ChatErrorPrefix + world.userSave.value) && x.writes == []
    ensures world.retrieved.Success? && world.reply.Success? && world.userSave.None? && world.replySave.Some? ==>
              && x.result == Failure(ChatErrorPrefix + world.replySave.value)
              && x.writes == WriteBack(message, world.reply.value, world.userTime, world.replyTime)[..1]
    ensures x.result.Success? ==>
              && world.reply.Success? && x.result.value == world.reply.value
              && x.writes == WriteBack(message, world.reply.value, world.userTime, world.replyTime)
    ensures world.reply.Failure? ==> x.writes == []
    ensures world.reply.Success? ==> x.writes <= WriteBack(message, world.reply.value, world.userTime, world.replyTime)
  {
    match world.retrieved
    case Failure(e) => Exchange(Failure(ChatErrorPrefix + e), None, [])
    case Success(memories) =>
      var sent := EnhancedMessage(message, memories);
      match world.reply
      case Failure(e) => Exchange(Failure(ChatErrorPrefix + e), Some(sent), [])
      case Success(text) =>
        var w := WriteBack(message, text, world.userTime, world.replyTime);
        if world.userSave.Some? then Exchange(Failure(ChatErrorPrefix + world.userSave.value), Some(sent), [])
        else if world.replySave.Some? then Exchange(Failure(ChatErrorPrefix + world.replySave.value), Some(sent), w[..1])
        else Exchange(Success(text), Some(sent), w)
  }

  /** A completed exchange writes exactly two memories: first the user's
      original message (never the context-enhanced one) tagged
      `user_message`, then the reply tagged `assistant_response`. */
  lemma WriteBackOrder(message: string, context: seq<Json>, world: World)
    requires Process(message, context, world).result.Success?
    ensures var x := Process(message, context, world);
            && |x.writes| == 2
            && x.writes[0] == Write(message, Tag(UserMessageType, world.userTime))
            && x.writes[1] == Write(x.result.value, Tag(AssistantResponseType, world.replyTime))
            && (|world.retrieved.value| > 0 ==> x.writes[0].content != x.sent.value)
  {
    var x := Process(message, context, world);
    if |world.retrieved.value| > 0 {
      assert |x.sent.value| > |message|;
    }
  }

  /** The `context` argument has no effect. */
  lemma ContextIgnored(message: string, context1: seq<Json>, context2: seq<Json>, world: World)
    ensures Process(message, context1, world) == Process(message, context2, world)
  {
  }

  /** One turn of a chat session's history. */
  datatype Turn = Turn(role: string, text: string)

  /** The state of a chat session: its history and its generation settings. */
  datatype ChatSession = ChatSession(history: seq<Turn>, config: GenerationConfig)

  /** `this.model.startChat({ history: [], generationConfig })`. */
  function StartChat(): (c: ChatSession)
    ensures c.history == [] && c.config == DefaultGenerationConfig
  {
    ChatSession([], DefaultGenerationConfig)
  }

  /** The service object: `this.chat` and the memories it has written back. */
  class Gemini {
    var chat: ChatSession
    var written: seq<Write>

    constructor()
      ensures chat == StartChat() && written == []
    {
      chat := StartChat();
      written := [];
    }

    /** `sendMessage`: the chat session records the sent message and the
        reply once the model has answered; the write-backs follow in order
        and stop at the first save that fails. */
    method SendMessage(message: string, context: seq<Json>, world: World) returns (r: Result<string, string>)
      modifies this
      ensures r == Process(message, context, world).result
      ensures written == old(written) + Process(message, context, world).writes
      ensures chat.config == old(chat.config)
      ensures world.retrieved.Success? && world.reply.Success? ==>
                chat.history == old(chat.history) +
                  [Turn("user", EnhancedMessage(message, world.retrieved.value)), Turn("model", world.reply.value)]
      ensures world.retrieved.Failure? || world.reply.Failure? ==> chat == old(chat)
    {
      if world.retrieved.Failure? {
        return Failure(ChatErrorPrefix + world.retrieved.error);
      }
      var enhanced := EnhancedMessage(message, world.retrieved.value);
      if world.reply.Failure? {
        return Failure(ChatErrorPrefix + world.reply.error);
      }
      var text := world.reply.value;
      chat := chat.(history := chat.history + [Turn("user", enhanced), Turn("model", text)]);
      if world.userSave.Some? {
        return Failure(ChatErrorPrefix + world.userSave.value);
      }
      written := written + [Write(message, Tag(UserMessageType, world.userTime))];
      if world.replySave.Some? {
        return Failure(ChatErrorPrefix + world.replySave.value);
      }
      written := written + [Write(text, Tag(AssistantResponseType, world.replyTime))];
      return Success(text);
    }

    /** `resetChat`: a fresh session with an empty history; nothing written
        back is touched. */
    method ResetChat()
      modifies this
      ensures chat == StartChat()
      ensures chat.history == []
      ensures written == old(written)
    {
      chat := StartChat();
    }
  }
}
