/**
 * The event names and payload shapes the host and the two remotes agree on:
 * `{ text }` under "chat:new-message" (chat-app/src/ChatApp.jsx:28) and
 * `{ from, timestamp }` under "broadcast" (host/src/App.jsx:38).
 */
module AppEvents {
  import opened Wrappers

  datatype Payload = ChatText(text: string) | HostBroadcast(from: string, timestamp: int)

  const ChatNewMessage: string := "chat:new-message"
  const Broadcast: string := "broadcast"

  /** What `({ text }) => ...` destructures: the text, or `undefined` for a payload without one. */
  function TextOf(p: Payload): (r: Option<string>)
    ensures r.Some? <==> p.ChatText?
    ensures p.ChatText? ==> r.value == p.text
  {
    match p
    case ChatText(t) => Some(t)
    case HostBroadcast(_, _) => None
  }
}
