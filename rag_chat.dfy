/** RAG-With-Dockling: the chat state a browser session keeps — the message history,
    the context slot and the cache of query engines built per uploaded file. Building
    an engine (document loading, indexing) and the model's streamed answer are
    outside the model: they are parameters. */
module RagChat {
  import opened Wrappers
  import opened PyStr
  import opened RagFormat

  datatype Role = User | Assistant

  /** `{"role": ..., "content": ...}`. */
  datatype Message = Message(role: Role, content: string)

  /** `f"{session_id}-{name}"`: the cache key of an uploaded file. */
  function FileKey(sessionId: string, name: string): (key: string)
    ensures |key| == |sessionId| + 1 + |name|
    ensures key[..|sessionId|] == sessionId && key[|sessionId|] == '-'
  {
    sessionId + "-" + name
  }

  /** Within a session, different file names get different cache keys. */
  lemma FileKeyInjective(sessionId: string, a: string, b: string)
    requires FileKey(sessionId, a) == FileKey(sessionId, b)
    ensures a == b
  {
    assert a == FileKey(sessionId, a)[|sessionId| + 1..];
    assert b == FileKey(sessionId, b)[|sessionId| + 1..];
  }

  /** `full_response`: the streamed chunks, accumulated in order. */
  method AccumulateChunks(chunks: seq<string>) returns (full: string)
    ensures full == Concat(chunks)
    ensures |full| == TotalLength(chunks)
  {
    full := [];
    var i := 0;
    while i < |chunks|
      invariant 0 <= i <= |chunks|
      invariant full == Concat(chunks[..i])
    {
      assert chunks[..i + 1][..i] == chunks[..i];
      full := full + chunks[i];
      i := i + 1;
    }
    assert chunks[..i] == chunks;
    ConcatLength(chunks);
  }

  /** The chat state of one browser session. */
  class ChatSession<Engine> {
    /** `st.session_state.id`, fixed when the session starts. */
    const sessionId: string
    var messages: seq<Message>
    var context: Option<string>
    var fileCache: map<string, Engine>

    /** A new session: a fresh id and an empty cache (lines 26-28); the history
        does not exist yet and is set up by `reset_chat` (lines 245-246). */
    constructor (sessionId: string)
      ensures this.sessionId == sessionId
      ensures messages == [] && context == None && fileCache == map[]
    {
      this.sessionId := sessionId;
      fileCache := map[];
      messages := [];
      context := None;
    }

    /** `reset_chat`: an empty history and no context; the cache is kept. */
    method ResetChat()
      modifies this
      ensures messages == [] && context == None
      ensures fileCache == old(fileCache)
    {
      messages := [];
      context := None;
    }

    /** The upload branch: the engine cached under the file's key, or else the one
        `build` makes, stored only when the key is absent. `build` is `None` when
        loading or indexing raises: the error is reported, the script stops and
        nothing is cached. */
    method LoadFile(name: string, build: Option<Engine>) returns (engine: Option<Engine>)
      modifies this
      ensures FileKey(sessionId, name) in old(fileCache) ==>
        engine == Some(old(fileCache)[FileKey(sessionId, name)]) && fileCache == old(fileCache)
      ensures FileKey(sessionId, name) !in old(fileCache) && build.Some? ==>
        engine == build && fileCache == old(fileCache)[FileKey(sessionId, name) := build.value]
      ensures FileKey(sessionId, name) !in old(fileCache) && build.None? ==>
        engine == None && fileCache == old(fileCache)
      ensures messages == old(messages) && context == old(context)
    {
      var fileKey := FileKey(sessionId, name);
      if fileKey !in fileCache {
        if build.None? {
          return None;
        }
        fileCache := fileCache[fileKey := build.value];
        engine := build;
      } else {
        engine := Some(fileCache[fileKey]);
      }
    }

    /** A submitted prompt. `answer` is the engine's streamed answer, or `None`
        when no engine exists or the query fails; the user's message is recorded
        before the query, the assistant's unformatted answer after the stream ends.
        The result is the formatted answer shown to the user. An empty prompt does
        nothing. */
    method Ask(prompt: string, answer: Option<seq<string>>) returns (shown: Option<string>)
      modifies this
      ensures prompt == [] ==> messages == old(messages) && shown == None
      ensures prompt != [] && answer.None? ==>
        messages == old(messages) + [Message(User, prompt)] && shown == None
      ensures prompt != [] && answer.Some? ==>
        && messages == old(messages) + [Message(User, prompt), Message(Assistant, Concat(answer.value))]
        && shown == Some(FormatResponse(Concat(answer.value)))
      ensures context == old(context) && fileCache == old(fileCache)
    {
      if prompt == [] {
        return None;
      }
      messages := messages + [Message(User, prompt)];
      if answer.None? {
        return None;
      }
      var fullResponse := AccumulateChunks(answer.value);
      var formattedFinal := ProcessResponse(fullResponse);
      messages := messages + [Message(Assistant, fullResponse)];
      shown := Some(formattedFinal);
    }
  }
}
