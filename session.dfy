/** The state kept by `sendMessage` in public/chat.js:37-104 and public/script.js:77-145:
    the conversation sent to the server (`chatHistory`), the single-flight flag
    `isProcessing`, the text box, the disabled state of the controls, the typing indicator and
    the bubbles shown in the chat log. The two scripts run the same code and differ only in
    the greeting that opens the conversation.

    `sendMessage` is split at its first `await`: `Submit` is the synchronous part (the
    guard, the flags, the user's bubble and history entry, the empty reply bubble), and
    `Finish` is the rest, whose network outcome is an input. `SendMessage` runs both as one
    step. */
module Session {
  import opened Text
  import Stream

  datatype Role = User | Assistant

  /** One `chatHistory` entry `{ role, content }`. */
  datatype Message = Message(role: Role, content: string)

  /** A bubble of the chat log: one added by `addMessageToChat` with its raw content, or the
      streamed reply paragraph with the HTML last written to it. */
  datatype Bubble = Added(role: Role, content: string) | Reply(html: string)

  /** What the network does once the request is sent: `fetch` rejects or answers with an
      error status; or the body is read to the end; or a `read` rejects after the given
      chunks were decoded. */
  datatype Outcome = FetchFailed | Completed(chunks: seq<string>) | Interrupted(chunks: seq<string>)

  const ChatGreeting: string :=
    "Hello! I'm an LLM chat app powered by Cloudflare Workers AI. How can I help you today?"
  const ScriptGreeting: string :=
    "Xin chào! Tôi là ứng dụng ChatGPT mini tích hợp AI. Bạn cần giúp gì hôm nay?"
  /** The page a session runs on: the two scripts differ only in their greeting. */
  datatype Page = ChatPage | ScriptPage

  /** The assistant entry `chatHistory` starts with (public/chat.js:8-14,
      public/script.js:26-32). */
  function Greeting(page: Page): string {
    match page
    case ChatPage => ChatGreeting
    case ScriptPage => ScriptGreeting
  }

  const ErrorText: string := "❌ Xin lỗi, đã xảy ra lỗi khi xử lý yêu cầu của bạn."

  /** A user entry holds trimmed, non-empty text. */
  predicate WellFormedUser(m: Message) {
    m.role == User ==> m.content != [] && !IsSpace(m.content[0]) && !IsSpace(m.content[|m.content| - 1])
  }

  /** What the history gains from one accepted send: the user entry, then the assistant
      entry only when the stream was read to the end. */
  function Gained(message: string, outcome: Outcome, parse: string -> Stream.Record): seq<Message> {
    [Message(User, message)]
    + (if outcome.Completed? then [Message(Assistant, Stream.StreamText(outcome.chunks, parse))] else [])
  }

  /** The bubbles a request ends with: the reply paragraph, showing the formatted
      accumulated text or left empty when nothing arrived, and then the error bubble unless
      the stream was read to the end. */
  function Ending(outcome: Outcome, parse: string -> Stream.Record, format: string -> string): seq<Bubble> {
    var text := if outcome.FetchFailed? then "" else Stream.StreamText(outcome.chunks, parse);
    [Reply(if text == "" then "" else format(text))] + (if outcome.Completed? then [] else [Added(Assistant, ErrorText)])
  }

  /** A request ends with its reply paragraph, and with the error bubble after it exactly
      when the stream was not read to the end. */
  lemma EndingShape(outcome: Outcome, parse: string -> Stream.Record, format: string -> string)
    ensures var e := Ending(outcome, parse, format);
            && |e| == (if outcome.Completed? then 1 else 2)
            && e[0].Reply?
            && (outcome.FetchFailed? ==> e[0] == Reply(""))
            && (!outcome.Completed? ==> e[1] == Added(Assistant, ErrorText))
  {
  }

  /** An assistant entry appended to a history keeps every user entry well formed. */
  lemma AppendAssistant(h: seq<Message>, content: string)
    requires forall k :: 0 <= k < |h| ==> WellFormedUser(h[k])
    ensures forall k :: 0 <= k < |h| + 1 ==> WellFormedUser((h + [Message(Assistant, content)])[k])
  {
  }

  class ChatSession {
    var history: seq<Message>
    var isProcessing: bool
    var input: string
    var controlsDisabled: bool
    var typingVisible: bool
    var log: seq<Bubble>

    /** The conversation opens with the greeting; a user entry is never blank; the controls
        are disabled and the indicator shown exactly while a request is in flight, and the
        last bubble is then its reply paragraph. */
    ghost predicate Valid()
      reads this
    {
      && |history| >= 1 && history[0].role == Assistant
      && (forall k :: 0 <= k < |history| ==> WellFormedUser(history[k]))
      && controlsDisabled == isProcessing
      && typingVisible == isProcessing
      && (isProcessing ==> |log| >= 1 && log[|log| - 1].Reply?)
    }

    constructor (greeting: string)
      ensures Valid()
      ensures history == [Message(Assistant, greeting)]
      ensures !isProcessing && input == "" && log == []
    {
      history := [Message(Assistant, greeting)];
      isProcessing := false;
      input := "";
      controlsDisabled := false;
      typingVisible := false;
      log := [];
    }

    /** The user edits the text box (`userInput.value`), which is possible only while it is
        enabled, that is while no request is in flight. */
    method Type(text: string)
      modifies this
      requires Valid() && !controlsDisabled
      ensures Valid()
      ensures input == text
      ensures history == old(history) && isProcessing == old(isProcessing) && log == old(log)
      ensures controlsDisabled == old(controlsDisabled) && typingVisible == old(typingVisible)
    {
      input := text;
    }

    /** The part of `sendMessage` before the request is sent. A blank text box, or a request
        already in flight, leaves everything as it was; otherwise the trimmed text is shown
        and appended to the history, the box is cleared, the controls are disabled, and an
        empty reply paragraph is added. */
    method Submit() returns (accepted: bool, message: string)
      modifies this
      requires Valid()
      ensures Valid()
      ensures accepted <==> Trim(old(input)) != "" && !old(isProcessing)
      ensures !accepted ==>
                history == old(history) && isProcessing == old(isProcessing) && input == old(input)
                && controlsDisabled == old(controlsDisabled) && typingVisible == old(typingVisible)
                && log == old(log)
      ensures accepted ==>
                message == Trim(old(input)) && isProcessing && input == ""
                && history == old(history) + [Message(User, message)]
                && log == old(log) + [Added(User, message), Reply("")]
    {
      message := Trim(input);
      TrimSound(input);
      if message == "" || isProcessing {
        return false, message;
      }
      isProcessing := true;
      controlsDisabled := true;
      log := log + [Added(User, message)];
      input := "";
      typingVisible := true;
      history := history + [Message(User, message)];
      log := log + [Reply("")];
      accepted := true;
    }

    /** The part of `sendMessage` after the request is sent, given its outcome: the reply
        paragraph shows the formatted accumulated text; the assistant entry is appended to
        the history only when the stream was read to the end; on any failure the error
        bubble is added and the history keeps only the user entry; in every case the
        request ends, the indicator is hidden and the controls are enabled again. */
    method Finish(outcome: Outcome, parse: string -> Stream.Record, format: string -> string)
      modifies this
      requires Valid() && isProcessing
      ensures Valid()
      ensures !isProcessing && !controlsDisabled && !typingVisible && input == old(input)
      ensures outcome.Completed? ==>
                history == old(history) + [Message(Assistant, Stream.StreamText(outcome.chunks, parse))]
      ensures !outcome.Completed? ==> history == old(history)
      ensures log == old(log)[..|old(log)| - 1] + Ending(outcome, parse, format)
    {
      var base := log[..|log| - 1];
      match outcome {
        case FetchFailed =>
          assert Ending(outcome, parse, format) == [Reply("")] + [Added(Assistant, ErrorText)];
          log := base + ([Reply("")] + [Added(Assistant, ErrorText)]);
        case Completed(chunks) =>
          var responseText, shown := Stream.Accumulate(chunks, parse, format);
          assert Ending(outcome, parse, format) == [Reply(shown)];
          log := base + [Reply(shown)];
          AppendAssistant(history, responseText);
          history := history + [Message(Assistant, responseText)];
        case Interrupted(chunks) =>
          var responseText, shown := Stream.Accumulate(chunks, parse, format);
          assert Ending(outcome, parse, format) == [Reply(shown)] + [Added(Assistant, ErrorText)];
          log := base + ([Reply(shown)] + [Added(Assistant, ErrorText)]);
      }
      typingVisible := false;
      isProcessing := false;
      controlsDisabled := false;
    }

    /** `sendMessage` as one step. A blank box or a request in flight changes nothing; an
        accepted send ends with no request in flight and the history grown by the user entry
        and, when the stream was read to the end, the assistant entry after it. */
    method SendMessage(outcome: Outcome, parse: string -> Stream.Record, format: string -> string)
      returns (accepted: bool)
      modifies this
      requires Valid()
      ensures Valid()
      ensures accepted <==> Trim(old(input)) != "" && !old(isProcessing)
      ensures !accepted ==> history == old(history) && isProcessing == old(isProcessing) && log == old(log)
      ensures accepted ==> !isProcessing && history == old(history) + Gained(Trim(old(input)), outcome, parse)
      ensures !accepted ==> input == old(input)
      ensures accepted ==> input == ""
      ensures accepted ==> log == old(log) + [Added(User, Trim(old(input)))] + Ending(outcome, parse, format)
    {
      var message;
      accepted, message := Submit();
      if accepted {
        ghost var mid := history;
        ghost var midLog := log;
        Finish(outcome, parse, format);
        assert history == mid + Gained(message, outcome, parse)[1..];
        assert midLog[..|midLog| - 1] == old(log) + [Added(User, message)];
        assert log == midLog[..|midLog| - 1] + Ending(outcome, parse, format);
      }
    }
  }

  /** An accepted send grows the history by two entries when the stream completes and by
      one otherwise. */
  lemma GainedLength(message: string, outcome: Outcome, parse: string -> Stream.Record)
    ensures |Gained(message, outcome, parse)| == if outcome.Completed? then 2 else 1
    ensures Gained(message, outcome, parse)[0] == Message(User, message)
    ensures outcome.Completed? ==>
              Gained(message, outcome, parse)[1] == Message(Assistant, Stream.StreamText(outcome.chunks, parse))
  {
  }

  /** A second send while the first is in flight is ignored: single flight. On a freshly
      opened page, typing a message and sending it leaves the box disabled and cleared, so
      a second send finds both a blank box and the flag `isProcessing` set (which the page
      keeps as a defensive guard) and changes nothing: the history holds the greeting and
      one user entry, with the first request still in flight. */
  method SecondSubmitIgnored(page: Page, text: string) returns (s: ChatSession)
    requires Trim(text) != ""
    ensures s.isProcessing && s.controlsDisabled && s.input == ""
    ensures s.history == [Message(Assistant, Greeting(page)), Message(User, Trim(text))]
    ensures s.log == [Added(User, Trim(text)), Reply("")]
  {
    s := new ChatSession(Greeting(page));
    s.Type(text);
    var first, m1 := s.Submit();
    assert first;
    var second, m2 := s.Submit();
    assert !second;
  }
}
