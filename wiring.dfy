/**
 * The two remotes joined by the host's bus. `emit` reports the calls it makes
 * as deliveries; here each delivery runs the listener it names: the email
 * app's "chat:new-message" listener (email-app/src/EmailApp.jsx:15-16) or the
 * chat app's "broadcast" listener (chat-app/src/ChatApp.jsx:14-15).
 */
module Wiring {
  import opened Wrappers
  import opened JsText
  import opened Bus
  import opened AppEvents
  import opened Inbox
  import opened Chat

  /** The position of the last delivery addressed to `id`, if any. */
  function LastTo(ds: seq<Delivery<Payload>>, id: ListenerId): (r: Option<nat>)
    ensures r.Some? ==>
      r.value < |ds| && ds[r.value].listener == id &&
      (forall j :: r.value < j < |ds| ==> ds[j].listener != id)
    ensures r.None? ==> forall j :: 0 <= j < |ds| ==> ds[j].listener != id
    decreases |ds|
  {
    if ds == [] then None
    else if ds[|ds| - 1].listener == id then Some(|ds| - 1)
    else LastTo(ds[..|ds| - 1], id)
  }

  /**
   * The email app's `lastChat` after the listener `emailListener` has seen its
   * deliveries, in order: the text of the last delivery addressed to it, or
   * `last` when none is.
   */
  function LastChatAfter(last: Option<string>, ds: seq<Delivery<Payload>>, emailListener: ListenerId): (r: Option<string>)
    ensures r == match LastTo(ds, emailListener)
                 case None => last
                 case Some(i) => TextOf(ds[i].payload)
    decreases |ds|
  {
    if ds == [] then last
    else
      var d := ds[|ds| - 1];
      var before := LastChatAfter(last, ds[..|ds| - 1], emailListener);
      if d.listener == emailListener then TextOf(d.payload) else before
  }

  /**
   * The messages the chat's broadcast listener appends: one 'Host' line per
   * delivery addressed to it, and none when no delivery is.
   */
  function HostMessages(ds: seq<Delivery<Payload>>, chatListener: ListenerId, timeLabel: string, now: int): (r: seq<Message>)
    ensures |r| <= |ds|
    ensures forall k :: 0 <= k < |r| ==> r[k] == Message(now, Host, BroadcastLine(timeLabel), now)
    ensures r == [] <==> forall i :: 0 <= i < |ds| ==> ds[i].listener != chatListener
    decreases |ds|
  {
    if ds == [] then []
    else
      HostMessages(ds[..|ds| - 1], chatListener, timeLabel, now) +
      (if ds[|ds| - 1].listener == chatListener then [Message(now, Host, BroadcastLine(timeLabel), now)] else [])
  }

  /** When every delivery carries the text `t`, the email app ends up showing `t` exactly when it was among the listeners. */
  lemma {:induction false} LastChatReached(last: Option<string>, ds: seq<Delivery<Payload>>, ids: seq<ListenerId>,
                                           t: string, emailListener: ListenerId)
    requires DeliversTo(ds, ids, ChatText(t))
    ensures LastChatAfter(last, ds, emailListener) == if emailListener in ids then Some(t) else last
    decreases |ds|
  {
    if ds != [] {
      var n := |ds| - 1;
      LastChatReached(last, ds[..n], ids[..n], t, emailListener);
      assert ids == ids[..n] + [ids[n]];
    }
  }

  /** A set of listeners holds each listener once, so a listener among them gets one delivery and appends one message. */
  lemma {:induction false} HostMessagesOnce(ds: seq<Delivery<Payload>>, ids: seq<ListenerId>, p: Payload,
                                            chatListener: ListenerId, timeLabel: string, now: int)
    requires DeliversTo(ds, ids, p) && NoDuplicates(ids)
    ensures HostMessages(ds, chatListener, timeLabel, now) ==
      if chatListener in ids then [Message(now, Host, BroadcastLine(timeLabel), now)] else []
    decreases |ds|
  {
    if ds != [] {
      var n := |ds| - 1;
      assert NoDuplicates(ids[..n]);
      HostMessagesOnce(ds[..n], ids[..n], p, chatListener, timeLabel, now);
      assert ids == ids[..n] + [ids[n]];
      assert ids[n] !in ids[..n];
    }
  }

  /** Runs, in order, the listener each delivery names; deliveries to other listeners change neither app. */
  method Dispatch(ds: seq<Delivery<Payload>>, chat: ChatApp, chatListener: ListenerId,
                  email: EmailApp, emailListener: ListenerId, timeLabel: string, now: int)
    requires email.Valid() && chatListener != emailListener
    modifies chat, email
    ensures email.Valid()
    ensures chat.messages == old(chat.messages) + HostMessages(ds, chatListener, timeLabel, now)
    ensures chat.input == old(chat.input) && chat.isTyping == old(chat.isTyping)
    ensures email.lastChat == LastChatAfter(old(email.lastChat), ds, emailListener)
    ensures email.emails == old(email.emails) && email.filter == old(email.filter)
    ensures email.compose == old(email.compose) && email.toError == old(email.toError)
  {
    for i := 0 to |ds|
      invariant email.Valid()
      invariant chat.messages == old(chat.messages) + HostMessages(ds[..i], chatListener, timeLabel, now)
      invariant chat.input == old(chat.input) && chat.isTyping == old(chat.isTyping)
      invariant email.lastChat == LastChatAfter(old(email.lastChat), ds[..i], emailListener)
      invariant email.emails == old(email.emails) && email.filter == old(email.filter)
      invariant email.compose == old(email.compose) && email.toError == old(email.toError)
    {
      assert ds[..i + 1][..i] == ds[..i];
      var d := ds[i];
      if d.listener == chatListener {
        chat.OnBroadcast(timeLabel, now);
      } else if d.listener == emailListener {
        email.OnChatMessage(d.payload);
      }
    }
    assert ds[..|ds|] == ds;
  }

  /**
   * A chat send with text reaches the email app subscribed to
   * "chat:new-message": its `lastChat` becomes the trimmed text the chat
   * appended. A blank send changes neither app.
   */
  method SendChat(bus: EventBus<Payload>, chat: ChatApp, chatListener: ListenerId,
                  email: EmailApp, emailListener: ListenerId, now: int)
    requires bus.Valid() && email.Valid()
    requires emailListener in ListenersOf(bus.listeners, ChatNewMessage)
    requires chatListener !in ListenersOf(bus.listeners, ChatNewMessage) && chatListener != emailListener
    modifies chat, email
    ensures email.Valid()
    ensures !IsBlank(old(chat.input)) ==>
      chat.messages == old(chat.messages) + [Message(now, You, Trim(old(chat.input)), now)] &&
      email.lastChat == Some(Trim(old(chat.input))) &&
      chat.input == "" && !chat.isTyping
    ensures IsBlank(old(chat.input)) ==>
      chat.messages == old(chat.messages) && email.lastChat == old(email.lastChat) &&
      chat.input == old(chat.input) && chat.isTyping == old(chat.isTyping)
    ensures email.emails == old(email.emails) && email.filter == old(email.filter)
    ensures email.compose == old(email.compose) && email.toError == old(email.toError)
  {
    var text := Trim(chat.input);
    ghost var last := email.lastChat;
    var delivered := chat.Send(bus, now);
    ghost var afterSend := chat.messages;
    Dispatch(delivered, chat, chatListener, email, emailListener, "", now);
    var ids := ListenersOf(bus.listeners, ChatNewMessage);
    if text != [] {
      LastChatReached(last, delivered, ids, text, emailListener);
      HostMessagesOnce(delivered, ids, ChatText(text), chatListener, "", now);
    }
  }

  /**
   * The host's Broadcast button (host/src/App.jsx:38) with the chat app
   * subscribed to "broadcast": exactly one message by 'Host' is appended
   * and the email app's `lastChat` is untouched.
   */
  method SendBroadcast(bus: EventBus<Payload>, chat: ChatApp, chatListener: ListenerId,
                       email: EmailApp, emailListener: ListenerId, timeLabel: string, now: int)
    returns (delivered: seq<Delivery<Payload>>)
    requires bus.Valid() && email.Valid()
    requires chatListener in ListenersOf(bus.listeners, Broadcast)
    requires emailListener !in ListenersOf(bus.listeners, Broadcast) && chatListener != emailListener
    modifies chat, email
    ensures email.Valid()
    ensures chat.messages == old(chat.messages) + [Message(now, Host, BroadcastLine(timeLabel), now)]
    ensures chat.input == old(chat.input) && chat.isTyping == old(chat.isTyping)
    ensures email.lastChat == old(email.lastChat) && email.emails == old(email.emails)
    ensures email.filter == old(email.filter) && email.compose == old(email.compose)
    ensures email.toError == old(email.toError)
  {
    var p := Payload.HostBroadcast("host", now);
    delivered := bus.Emit(Broadcast, p);
    var ids := ListenersOf(bus.listeners, Broadcast);
    HostMessagesOnce(delivered, ids, p, chatListener, timeLabel, now);
    LastChatUntouched(email.lastChat, delivered, ids, p, emailListener);
    Dispatch(delivered, chat, chatListener, email, emailListener, timeLabel, now);
  }

  /** A listener that is not among the recipients does not see its `lastChat` change. */
  lemma {:induction false} LastChatUntouched(last: Option<string>, ds: seq<Delivery<Payload>>, ids: seq<ListenerId>,
                                             p: Payload, emailListener: ListenerId)
    requires DeliversTo(ds, ids, p) && emailListener !in ids
    ensures LastChatAfter(last, ds, emailListener) == last
    decreases |ds|
  {
    if ds != [] {
      var n := |ds| - 1;
      assert ids[n] in ids;
      LastChatUntouched(last, ds[..n], ids[..n], p, emailListener);
    }
  }
}
