/**
 * The chat panel: its message list, the input box and the loading flag, the submit handler
 * that sends the conversation, and the stream reader that turns the reply's chunks into
 * one growing assistant message.
 */
module AIChatbot {
  import opened Wrappers
  import opened Text
  import opened ChatStream

  datatype Role = User | Assistant

  datatype Message = Message(role: Role, content: string)

  predicate LastIsAssistant(msgs: seq<Message>) {
    |msgs| > 0 && msgs[|msgs| - 1].role == Assistant
  }

  /**
   * The updater handed to `setMessages` for each fragment: the last message, when it is the
   * assistant's, gets the whole reply so far as its content; otherwise the reply is appended
   * as a new assistant message. Earlier messages are never touched.
   */
  function ShowAssistant(msgs: seq<Message>, content: string): (r: seq<Message>)
    ensures LastIsAssistant(msgs) ==> |r| == |msgs| && r[..|msgs| - 1] == msgs[..|msgs| - 1]
    ensures !LastIsAssistant(msgs) ==> |r| == |msgs| + 1 && r[..|msgs|] == msgs
    ensures LastIsAssistant(r) && r[|r| - 1] == Message(Assistant, content)
  {
    if LastIsAssistant(msgs) then msgs[|msgs| - 1 := msgs[|msgs| - 1].(content := content)]
    else msgs + [Message(Assistant, content)]
  }

  /** Showing a longer reply replaces what an earlier update showed: only the latest counts. */
  lemma ShowAssistantAbsorbs(msgs: seq<Message>, earlier: string, later: string)
    ensures ShowAssistant(ShowAssistant(msgs, earlier), later) == ShowAssistant(msgs, later)
  {
  }

  /** The messages once a reply with `reply` as its text has streamed in: no updater ran when it is empty. */
  function WithReply(msgs: seq<Message>, reply: string): (r: seq<Message>)
    ensures reply == "" ==> r == msgs
    ensures reply != "" && LastIsAssistant(msgs) ==> |r| == |msgs| && r[..|msgs| - 1] == msgs[..|msgs| - 1]
    ensures reply != "" && !LastIsAssistant(msgs) ==> r == msgs + [Message(Assistant, reply)]
    ensures reply != "" ==> LastIsAssistant(r) && r[|r| - 1] == Message(Assistant, reply)
  {
    if reply == "" then msgs else ShowAssistant(msgs, reply)
  }

  /** After a user message, a non-empty reply becomes exactly one new assistant message at the end. */
  lemma ReplyFollowsUserMessage(msgs: seq<Message>, text: string, reply: string)
    ensures WithReply(msgs + [Message(User, text)], reply) ==
      msgs + [Message(User, text)] + (if reply == "" then [] else [Message(Assistant, reply)])
  {
  }

  /** What the chat endpoint does with the request, as the reader sees it. */
  datatype Response =
    | NetworkFailure(message: string)        // `fetch` itself rejects
    | Refused(error: Option<string>)         // a non-2xx status; the `error` field of the JSON body, if any
    | NoBody                                 // a 2xx status without a body
    | Streamed(chunks: seq<string>, readFailure: Option<string>)  // the decoded chunks, then the end or a read error

  const FailedToGetResponse: string := "Failed to get response"
  const NoResponseBody: string := "No response body"

  /** The message of the error a refused request raises: the server's `error` text when it is non-empty. */
  function RefusalMessage(error: Option<string>): (m: string)
    ensures m != ""
    ensures error.Some? && error.value != "" ==> m == error.value
    ensures error.None? || error.value == "" ==> m == FailedToGetResponse
  {
    if error.Some? && error.value != "" then error.value else FailedToGetResponse
  }

  /** The text the stream assembles: the fragments the reader kept, in arrival order. */
  function ReplyText(response: Response, parse: string -> Parse): (reply: string)
    ensures !response.Streamed? ==> reply == ""
    ensures response.Streamed? && NoStop(Concat(response.chunks), parse) ==>
      reply == LinesContent(Concat(response.chunks), parse)
  {
    if response.Streamed? then
      var reply := Feed(Assembly("", ""), response.chunks, parse).content;
      assert NoStop(Concat(response.chunks), parse) ==> reply == LinesContent(Concat(response.chunks), parse) by {
        if NoStop(Concat(response.chunks), parse) {
          FeedWithoutStop(response.chunks, parse);
        }
      }
      reply
    else ""
  }

  /** The error message shown in the toast, if the request fails at some point. */
  function StreamFailure(response: Response): (f: Option<string>)
    ensures !response.Streamed? ==> f.Some?
    ensures response.Refused? || response.NoBody? ==> f.Some? && f.value != ""
    ensures response.Streamed? ==> f == response.readFailure
  {
    match response
    case NetworkFailure(message) => Some(message)
    case Refused(error) => Some(RefusalMessage(error))
    case NoBody => Some(NoResponseBody)
    case Streamed(_, readFailure) => readFailure
  }

  /** The send button is disabled while the input is blank or a reply is streaming. */
  function SendDisabled(input: string, isLoading: bool): (disabled: bool)
    ensures disabled <==> AllWhitespace(input) || isLoading
  {
    TrimEmptyIff(input);
    Trim(input) == "" || isLoading
  }

  class ChatPanel {
    var messages: seq<Message>
    var input: string
    var isLoading: bool

    constructor ()
      ensures messages == [] && input == "" && !isLoading
    {
      messages := [];
      input := "";
      isLoading := false;
    }

    /**
     * `streamChat`: read the response chunk by chunk, split the text into lines and show the
     * growing reply. The result is the message of the error it raises, if any.
     */
    method StreamChat(response: Response, parse: string -> Parse) returns (failure: Option<string>)
      modifies this`messages
      ensures messages == WithReply(old(messages), ReplyText(response, parse))
      ensures failure == StreamFailure(response)
    {
      if response.NetworkFailure? {
        return Some(response.message);
      }
      if response.Refused? {
        return Some(RefusalMessage(response.error));
      }
      if response.NoBody? {
        return Some(NoResponseBody);
      }
      var chunks := response.chunks;
      ghost var start := messages;
      var textBuffer := "";
      var assistantContent := "";
      var k := 0;
      while k < |chunks|
        invariant 0 <= k <= |chunks|
        invariant Assembly(textBuffer, assistantContent) == Feed(Assembly("", ""), chunks[..k], parse)
        invariant messages == WithReply(start, assistantContent)
      {
        textBuffer := textBuffer + chunks[k];
        ghost var target := Drain(Assembly(textBuffer, assistantContent), parse);
        assert chunks[..k + 1][..k] == chunks[..k];
        assert target == Feed(Assembly("", ""), chunks[..k + 1], parse);
        textBuffer, assistantContent := ReadLines(textBuffer, assistantContent, parse, start);
        k := k + 1;
      }
      assert chunks[..k] == chunks;
      failure := response.readFailure;
    }

    /**
     * The inner loop of `streamChat`: handle the complete lines of the buffer, one at a time,
     * until none is left, `[DONE]` is read or a payload does not parse.
     */
    method ReadLines(buffer: string, content: string, parse: string -> Parse, ghost start: seq<Message>)
      returns (textBuffer: string, assistantContent: string)
      requires messages == WithReply(start, content)
      modifies this`messages
      ensures Assembly(textBuffer, assistantContent) == Drain(Assembly(buffer, content), parse)
      ensures messages == WithReply(start, assistantContent)
    {
      textBuffer, assistantContent := buffer, content;
      var newlineIndex := IndexOf(textBuffer, '\n');
      while newlineIndex != -1
        invariant newlineIndex == IndexOf(textBuffer, '\n')
        invariant Drain(Assembly(textBuffer, assistantContent), parse) == Drain(Assembly(buffer, content), parse)
        invariant messages == WithReply(start, assistantContent)
        decreases |textBuffer|
      {
        ghost var before := Assembly(textBuffer, assistantContent);
        var line := textBuffer[..newlineIndex];
        textBuffer := textBuffer[newlineIndex + 1..];
        if EndsWith(line, "\r") {
          line := line[..|line| - 1];
        }
        assert line == StripCR(before.buffer[..newlineIndex]);
        assert StepLine(before, parse) == LineStep(line, textBuffer, assistantContent, parse);
        var stop;
        textBuffer, assistantContent, stop := HandleLine(line, textBuffer, assistantContent, parse, start);
        if stop {
          break;
        }
        newlineIndex := IndexOf(textBuffer, '\n');
      }
    }

    /**
     * One pass of the inner loop of `streamChat`, for a complete line whose CR is already
     * removed and the text after it: skip the line, stop at `[DONE]`, put it back and stop when
     * its payload does not parse, or show its fragment. `stop` tells whether the loop breaks.
     */
    method HandleLine(line: string, rest: string, content: string, parse: string -> Parse, ghost start: seq<Message>)
      returns (textBuffer: string, assistantContent: string, stop: bool)
      requires messages == WithReply(start, content)
      modifies this`messages
      ensures LineStep(line, rest, content, parse) ==
        if stop then Stop(Assembly(textBuffer, assistantContent)) else Continue(Assembly(textBuffer, assistantContent))
      ensures messages == WithReply(start, assistantContent)
    {
      textBuffer, assistantContent, stop := rest, content, false;
      if StartsWith(line, ":") || Trim(line) == "" {
        TrimEmptyIff(line);
        assert Classify(line) == Ignored;
        return;
      }
      if !StartsWith(line, DataPrefix) {
        assert Classify(line) == Ignored;
        return;
      }
      var jsonStr := Trim(line[6..]);
      if jsonStr == DoneSentinel {
        assert Classify(line) == DoneSignal;
        stop := true;
        return;
      }
      assert Classify(line) == Payload(jsonStr);
      var parsed := parse(jsonStr);
      if parsed.Unparseable? {
        textBuffer := line + "\n" + textBuffer;
        stop := true;
        return;
      }
      var fragment := parsed.content;
      if fragment.Some? && fragment.value != "" {
        assistantContent := assistantContent + fragment.value;
        if content != "" {
          ShowAssistantAbsorbs(start, content, assistantContent);
        }
        messages := ShowAssistant(messages, assistantContent);
      }
    }

    /**
     * `handleSubmit`: unless the input is blank or a reply is streaming, append the trimmed
     * input as a user message, clear the input, stream the reply and end the loading state.
     * Returns the conversation sent to the endpoint and the message of the toast, if any.
     */
    method HandleSubmit(response: Response, parse: string -> Parse) returns (sent: Option<seq<Message>>, failure: Option<string>)
      modifies this
      ensures old(SendDisabled(input, isLoading)) ==>
        sent == None && failure == None &&
        messages == old(messages) && input == old(input) && isLoading == old(isLoading)
      ensures !old(SendDisabled(input, isLoading)) ==>
        && sent == Some(old(messages) + [Message(User, Trim(old(input)))])
        && messages == WithReply(sent.value, ReplyText(response, parse))
        && failure == StreamFailure(response)
        && input == ""
        && !isLoading
    {
      if Trim(input) == "" || isLoading {
        return None, None;
      }
      var userMessage := Message(User, Trim(input));
      var newMessages := messages + [userMessage];
      messages := newMessages;
      input := "";
      isLoading := true;
      sent := Some(newMessages);
      failure := StreamChat(response, parse);
      assert messages == WithReply(newMessages, ReplyText(response, parse));
      isLoading := false;
    }
  }
}
