# Micro-frontend event bus, inbox and chat — a Dafny model

This project models the parts of a micro-frontend demo that carry behaviour.
The demo has a host shell and two remote apps, chat and email, which talk
through the host's event bus:

- **The event bus** (`host/src/eventBus.js`). A registry from event name to
  the set of listeners registered under it, with `on`, `off` and `emit`.
  It is modelled as the class `Bus.EventBus`. Its `listeners` field is a
  `map<string, seq<ListenerId>>`. Each set is a sequence without
  duplicates, because a JavaScript `Set` keeps one copy of each member and
  iterates in insertion order. Listeners are opaque ids. `on` returns the
  pair `(event, listener)` that `off` takes. `emit` returns the calls it
  makes as a sequence of deliveries `(listener, payload)`.
- **The email app** (`email-app/src/EmailApp.jsx`). The address check
  `isValidEmail` is a hand-written scanner (`EmailAddress.IsValidEmail`).
  It is proved equal to a description that splits on '@' and then on '.'.
  The inbox list operations are functions over a sequence of records. The
  component's state and handlers are the class `Inbox.EmailApp`.
- **The chat app** (`chat-app/src/ChatApp.jsx`). The message list, the
  input and the typing flag are the class `Chat.ChatApp`. `Send` emits
  `chat:new-message` on the bus.
- **The wiring** (`Wiring`). Each delivery runs the listener it names.
  `Wiring.SendChat` proves the end-to-end property: a chat message reaches
  the email app's `lastChat`. `Wiring.SendBroadcast` proves that the host's
  broadcast adds exactly one 'Host' message to the chat.

`JsText` models `String.prototype.trim`, using ECMAScript's white-space and
line-terminator characters. It also defines the split-on-a-character
function that the address characterisation uses.

Two choices follow the code directly:

- A JavaScript `Set` iterates in insertion order (eventBus.js:17), so
  `Emit` promises that order.
- `isValidEmail` is modelled because the guard of `addEmail`
  (EmailApp.jsx:24) and the To-field error (EmailApp.jsx:99) depend on it.

## Model

| member | source | states |
|---|---|---|
| `Bus.Added` | host/src/eventBus.js:7 | Adding to a set keeps every member and adds `id`. An `id` already present keeps its place; a new one goes last. Keeps the set free of duplicates. |
| `Bus.Removed` | host/src/eventBus.js:12 | Deleting from a set keeps exactly the members other than `id`. It is a no-op when `id` is absent, shrinks the set by one when `id` is present, and keeps the set free of duplicates. |
| `Bus.Subscribed` | host/src/eventBus.js:5-8 | After `on(e, id)`, `e` has an entry holding `id`. That entry is the old set of `e` (empty if `e` was unknown) with `id` added by `Added`, so the earlier listeners stay, in order. An unknown `e` gets the fresh set `[id]`. Every other event name keeps its set, and the registry stays well formed. |
| `Bus.Unsubscribed` | host/src/eventBus.js:10-14 | After `off(e, id)`, the key set is unchanged, so no entry is ever deleted. `id` is no longer under `e`, and every other listener under `e` is still there. Every other name is untouched. An unknown name or absent listener is a no-op. |
| `Bus.UnsubscribeKeepsOrder` | host/src/eventBus.js:10-13 | Removing the listener at index `k` closes the gap. Every other listener keeps its relative order. |
| `Bus.SubscribeThenUnsubscribe` | host/src/eventBus.js:5-13 | Registering a new listener and then calling its unsubscribe restores the event's set, and leaves the other names untouched. |
| `Bus.SubscribeTwice` | host/src/eventBus.js:7 | Registering the same listener twice under a name is the same as registering it once. |
| `Bus.UnsubscribeTwice` | host/src/eventBus.js:8-13 | Calling the unsubscribe twice is the same as calling it once. |
| `Bus.EventBus.constructor` | host/src/eventBus.js:2-4 | A new bus has an empty registry. |
| `Bus.EventBus.On` | host/src/eventBus.js:5-9 | The registry becomes `Subscribed(old, e, id)`. The handle returned is `(e, id)`. |
| `Bus.EventBus.Off` | host/src/eventBus.js:10-14 | The registry becomes `Unsubscribed(old, e, id)`. |
| `Bus.EventBus.Unsubscribe` | host/src/eventBus.js:8 | The handle from `on` has exactly the effect of `off(e, id)`. |
| `Bus.EventBus.Emit` | host/src/eventBus.js:15-18 | `emit(e, p)` delivers `p` once to each listener under `e`, in insertion order, with no delivery made twice. It delivers nothing when `e` has no entry or an empty set. It modifies nothing. |
| `Bus.SubscribeEmitUnsubscribe` | host/src/eventBus.js:5-18 | Subscribe `a` to "x" and emit 42: `a` gets 42 once. Unsubscribe and emit 7: no one gets anything. |
| `JsText.Trim` | chat-app/src/ChatApp.jsx:26 | `trim()` is an infix `s[i..j]` of `s`, where the prefix before `i` and the suffix from `j` are all white space. It is empty exactly when every character is white space. Otherwise it starts and ends with a non-space character. |
| `AppEvents.TextOf` | email-app/src/EmailApp.jsx:15 | Destructuring `{ text }` yields the text of a chat payload. For any other payload it yields nothing (`undefined`). |
| `EmailAddress.ScanHostCorrect` | email-app/src/EmailApp.jsx:21 | From each scanner state, the domain scanner accepts exactly the '.'-split pieces the state still allows. |
| `EmailAddress.ScanLocalCorrect` | email-app/src/EmailApp.jsx:21 | From inside an atom, the whole scanner accepts exactly the strings with one '@'. The pieces before it are atoms and the domain after it is well formed. |
| `EmailAddress.ScanHost` | email-app/src/EmailApp.jsx:21 | The domain scanner accepts no string holding an '@', and an accepted non-empty string ends in a letter. `ScanHostCorrect` states exactly what it accepts. |
| `EmailAddress.ScanLocal` | email-app/src/EmailApp.jsx:21 | The address scanner accepts only strings holding an '@' and ending in a letter. `ScanLocalCorrect` states exactly what it accepts. |
| `EmailAddress.IsValidEmail` | email-app/src/EmailApp.jsx:21 | `isValidEmail(s)` holds iff all of these hold. `s` has exactly one '@'. The part before it splits on '.' into non-empty atoms over ``[A-Za-z0-9_'^&/+-]``. The part after it splits on '.' into at least two pieces: every piece but the last is non-empty over `[A-Za-z0-9-]`, and the last is two or more ASCII letters. |
| `EmailAddress.ValidEmailIsTrimmed` | email-app/src/EmailApp.jsx:21-28 | A valid address is not blank and trims to itself. So the stored `from` (`compose.to.trim()`) equals `compose.to`. |
| `Inbox.WithReadToggled` | email-app/src/EmailApp.jsx:33-35 | `toggleRead(id)` keeps the length and order. It flips `read` exactly on the entries whose id is `id`, and keeps `id`, `from` and `subject`. |
| `Inbox.ToggleTwice` | email-app/src/EmailApp.jsx:34 | Toggling the same id twice gives the original list. |
| `Inbox.UnreadOf` | email-app/src/EmailApp.jsx:37-38 | The unread filter holds only unread entries of the list, and every unread entry of the list. |
| `Inbox.UnreadOfCounts` | email-app/src/EmailApp.jsx:37-38 | The unread filter has as many entries as there are positions whose entry has `read` false. |
| `Inbox.UnreadCount` | email-app/src/EmailApp.jsx:37 | `unreadCount` equals the number of positions whose entry has `read` false. |
| `Inbox.UnreadIsSubsequence` | email-app/src/EmailApp.jsx:38 | The unread view is an order-preserving subsequence of the list. |
| `Inbox.Filtered` | email-app/src/EmailApp.jsx:38 | The 'all' filter shows the whole list. The 'unread' filter shows an order-preserving subsequence of the list. It holds every unread entry and only unread entries, and its length is `unreadCount`. |
| `Inbox.Flipped` | email-app/src/EmailApp.jsx:48 | The filter button always switches to the other view. |
| `Inbox.ToFieldError` | email-app/src/EmailApp.jsx:99 | The To-field error is empty iff the typed value is empty or a valid address. |
| `Inbox.SendEnabledAfterTyping` | email-app/src/EmailApp.jsx:96-116 | Right after typing `v`, Send is enabled iff `v` is a valid address. Send is disabled when `to` is blank after trimming or an error is showing. |
| `Inbox.Accepted` | email-app/src/EmailApp.jsx:24 | The guard of `addEmail` holds iff `to` is not blank and is a valid address. An accepted address is its own trim. |
| `Inbox.SendDisabled` | email-app/src/EmailApp.jsx:116 | An enabled Send button means the To field is not blank. In a consistent form, it also means the guard of `addEmail` (line 24) lets the address through. |
| `Inbox.EmailApp.constructor` | email-app/src/EmailApp.jsx:6-12 | Initial state: the welcome email, filter 'all', an empty form, no error and no last chat. |
| `Inbox.EmailApp.AddEmail` | email-app/src/EmailApp.jsx:23-31 | If `to` is blank or invalid, the list and form stay as they were and the error is set. Otherwise exactly one unread email from `to` is appended. Its subject defaults to 'New system notification'. The form is reset and the error cleared. The form invariant is kept. |
| `Inbox.EmailApp.ToggleRead` | email-app/src/EmailApp.jsx:33-35 | The list becomes `WithReadToggled(old, id)`, and nothing else changes. |
| `Inbox.EmailApp.ToggleFilter` | email-app/src/EmailApp.jsx:48 | The filter flips, and nothing else changes. |
| `Inbox.EmailApp.OnToChange` | email-app/src/EmailApp.jsx:96-100 | `to` becomes `v` and the error becomes `ToFieldError(v)`. |
| `Inbox.EmailApp.OnSubjectChange` | email-app/src/EmailApp.jsx:111 | Only the subject changes. |
| `Inbox.EmailApp.OnChatMessage` | email-app/src/EmailApp.jsx:15-17 | The "chat:new-message" listener sets `lastChat` to the payload's text and changes nothing else. |
| `Chat.ChatApp.constructor` | chat-app/src/ChatApp.jsx:6-10 | Initial state: Alice's greeting, an empty input, and not typing. |
| `Chat.ChatApp.Send` | chat-app/src/ChatApp.jsx:25-31 | Whitespace-only input changes nothing and emits nothing. Otherwise exactly one message by 'You' with the trimmed text is appended, and earlier messages are kept. `chat:new-message` is emitted with that text to every registered listener. The input becomes '' and typing becomes false. |
| `Chat.ChatApp.OnInputChange` | chat-app/src/ChatApp.jsx:33-36 | `input` becomes the value. `isTyping` holds iff the value is not blank after trimming. |
| `Chat.ChatApp.OnKeyDown` | chat-app/src/ChatApp.jsx:38-43 | Enter without Shift has exactly the effect of `send`. Any other key, or Shift+Enter, changes nothing and emits nothing. |
| `Chat.ChatApp.Clear` | chat-app/src/ChatApp.jsx:45 | Exactly one message remains: 'System', 'Chat cleared.'. |
| `Chat.ChatApp.OnBroadcast` | chat-app/src/ChatApp.jsx:14-16 | The broadcast listener appends exactly one message by 'Host' and keeps the earlier ones. |
| `Wiring.LastTo` | email-app/src/EmailApp.jsx:15-16 | Finds the last delivery addressed to a listener: no later delivery goes to it, and `None` means no delivery does. |
| `Wiring.LastChatAfter` | email-app/src/EmailApp.jsx:15-16 | After its deliveries, the email listener shows the text of the last delivery addressed to it. If none is addressed to it, `lastChat` keeps its old value. |
| `Wiring.HostMessages` | chat-app/src/ChatApp.jsx:14-15 | The broadcast listener appends only 'Host' lines, no more than there are deliveries. It appends none exactly when no delivery is addressed to it. |
| `Wiring.LastChatReached` | email-app/src/EmailApp.jsx:15-16 | When every delivery carries the text `t`, the email listener ends with `lastChat = t` iff it was among the listeners. Otherwise `lastChat` is unchanged. |
| `Wiring.LastChatUntouched` | email-app/src/EmailApp.jsx:14-19 | A listener that is not registered for an event keeps its `lastChat` through that event's deliveries. |
| `Wiring.HostMessagesOnce` | chat-app/src/ChatApp.jsx:14-15 | A set holds the chat's broadcast listener at most once. So one emit appends one 'Host' message if the listener is registered, and none if it is not. |
| `Wiring.Dispatch` | host/src/eventBus.js:17 | Runs each delivery's listener in order. The chat gains one 'Host' message per delivery to its listener. The email's `lastChat` follows its deliveries. Nothing else changes. |
| `Wiring.SendChat` | chat-app/src/ChatApp.jsx:25-31 | A non-blank chat send appends the trimmed text as a 'You' message, empties the input and clears typing. The subscribed email app's `lastChat` becomes that text. A blank send changes neither app. Either way the email app's list, filter, form and error line are untouched. |
| `Wiring.SendBroadcast` | host/src/App.jsx:37-39 | The host's broadcast, with the chat subscribed, appends exactly one 'Host' message. It leaves the chat's input and typing flag unchanged. The email app's `lastChat`, list, filter, form and error line are untouched. |

## Left out

- Rendering is not modelled. This covers JSX markup, inline styles, the
  design-system components (`host/src/design-system/*`) and DOM mounting
  (`*/src/index.jsx`). They are presentation only.
- `host/src/App.jsx` is modelled only for its broadcast (`Wiring.SendBroadcast`).
  Lazy remote loading, `Suspense` and `ErrorBoundary` are left out: they
  are module loading over the network and React lifecycle. The Chat/Email
  tabs are left out too.
  - The host never mounts both remotes: it renders either `ChatApp` or
    `EmailApp` (App.jsx:57). While the chat is shown, the email app is
    unmounted and its listener has been removed by its `off`. So in the
    shipped host a chat send never sets the email app's `lastChat`.
    `Wiring.SendChat` states the chat-to-email path for a page that mounts
    both apps, such as a page other than this host.
- Bundler and Module Federation configuration (`*/webpack.config.js`) is
  not modelled. It contains no logic.
- `Date.now()` is the parameter `now`.
  - Ids are therefore supplied by the caller. Two emails with the same id
    are both flipped by `toggleRead`, and `Inbox.WithReadToggled` states
    exactly that.
  - One `now` stands for every clock read made during one handler.
- `toLocaleTimeString` is the parameter `timeLabel`. Locale formatting is
  outside the model.
- Mount and unmount are not separate members. `useEffect` subscribing at
  mount is `EventBus.On`, and the returned cleanup is
  `EventBus.Unsubscribe`. The timing of effects is not modelled.
- The scroll-to-bottom effect (ChatApp.jsx:20-23) and `preventDefault` on
  Enter are not modelled. They are DOM side effects.
- Listeners are opaque ids, not closures.
  - `Emit` returns its calls and `Wiring.Dispatch` runs them in the same
    order after the loop. This matches the source because no listener of
    these apps touches the bus.
  - Listeners that subscribe, unsubscribe or throw during `emit` have no
    defined behaviour in the source and are not modelled.
- React state updates are modelled as applied in order, right away.
  Batching and re-render scheduling are not modelled.
- The email listener given a payload without `text` sets `lastChat` to
  `undefined`. It is modelled as `None`, the same as the initial `null`;
  both render nothing.
- Strings are sequences of characters, not UTF-16 code units.
  - Every character class in the address pattern is ASCII, so this does
    not change which strings are valid.
  - `trim` uses the white-space set of ECMAScript.
