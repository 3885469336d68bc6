/**
 * The chat app's message list (chat-app/src/ChatApp.jsx): the component's
 * state, `messages`, `input` and `isTyping`, and the handlers that update it.
 * `now` stands for `Date.now()`; the time label of a broadcast is the
 * locale-formatted time, supplied by the caller.
 */
module Chat {
  import opened JsText
  import opened Bus
  import opened AppEvents

  datatype Message = Message(id: int, author: string, text: string, ts: int)

  const You: string := "You"
  const Host: string := "Host"

  /** The text of the message a broadcast adds. */
  function BroadcastLine(timeLabel: string): string {
    "Broadcast @ " + timeLabel
  }

  class ChatApp {
    var messages: seq<Message>
    var input: string
    var isTyping: bool

    /** The state at mount. */
    constructor (now: int)
      ensures messages == [Message(1, "Alice", "Hello from Chat micro-app!", now)]
      ensures input == "" && !isTyping
    {
      messages := [Message(1, "Alice", "Hello from Chat micro-app!", now)];
      input := "";
      isTyping := false;
    }

    /**
     * What `send` leaves behind, given the state it started from: nothing
     * changed and nothing emitted for blank input; otherwise one message by
     * 'You' with the trimmed text appended, that text emitted under
     * "chat:new-message" to every listener of the bus, and the input cleared.
     */
    ghost predicate SendOutcome(bus: EventBus<Payload>, input0: string, messages0: seq<Message>, typing0: bool,
                                now: int, delivered: seq<Delivery<Payload>>)
      reads this, bus
    {
      if IsBlank(input0) then
        messages == messages0 && input == input0 && isTyping == typing0 && delivered == []
      else
        messages == messages0 + [Message(now, You, Trim(input0), now)] && input == "" && !isTyping &&
        DeliversTo(delivered, ListenersOf(bus.listeners, ChatNewMessage), ChatText(Trim(input0)))
    }

    /** The Send button. */
    method Send(bus: EventBus<Payload>, now: int) returns (delivered: seq<Delivery<Payload>>)
      requires bus.Valid()
      modifies this
      ensures SendOutcome(bus, old(input), old(messages), old(isTyping), now, delivered)
    {
      var text := Trim(input);
      if text == [] {
        return [];
      }
      messages := messages + [Message(now, You, text, now)];
      delivered := bus.Emit(ChatNewMessage, ChatText(text));
      input := "";
      isTyping := false;
    }

    /** The input's `onChange`: the typing flag says whether the new value has anything but white space. */
    method OnInputChange(v: string)
      modifies this
      ensures input == v && (isTyping <==> !IsBlank(v))
      ensures messages == old(messages)
    {
      input := v;
      isTyping := Trim(v) != [];
    }

    /** The input's `onKeyDown`: Enter without Shift sends; any other key does nothing. */
    method OnKeyDown(key: string, shiftKey: bool, bus: EventBus<Payload>, now: int) returns (delivered: seq<Delivery<Payload>>)
      requires bus.Valid()
      modifies this
      ensures key == "Enter" && !shiftKey ==> SendOutcome(bus, old(input), old(messages), old(isTyping), now, delivered)
      ensures !(key == "Enter" && !shiftKey) ==>
        messages == old(messages) && input == old(input) && isTyping == old(isTyping) && delivered == []
    {
      delivered := [];
      if key == "Enter" && !shiftKey {
        delivered := Send(bus, now);
      }
    }

    /** The Clear button: one system message remains. */
    method Clear(now: int)
      modifies this
      ensures messages == [Message(now, "System", "Chat cleared.", now)]
      ensures input == old(input) && isTyping == old(isTyping)
    {
      messages := [Message(now, "System", "Chat cleared.", now)];
    }

    /** The listener this component registers under "broadcast" while mounted. */
    method OnBroadcast(timeLabel: string, now: int)
      modifies this
      ensures messages == old(messages) + [Message(now, Host, BroadcastLine(timeLabel), now)]
      ensures input == old(input) && isTyping == old(isTyping)
    {
      messages := messages + [Message(now, Host, BroadcastLine(timeLabel), now)];
    }
  }
}
