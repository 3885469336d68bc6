/**
 * The inbox of the email app (email-app/src/EmailApp.jsx): the list
 * operations as functions over a sequence of records, and the component's
 * state with the handlers that update it.
 */
module Inbox {
  import opened Wrappers
  import opened JsText
  import opened EmailAddress
  import opened AppEvents

  datatype Email = Email(id: int, from: string, subject: string, read: bool)

  /** The inbox view: everything, or the unread entries only. */
  datatype Filter = All | Unread

  /** The two fields of the compose form. */
  datatype Compose = Compose(to: string, subject: string)

  const Welcome: Email := Email(1, "hr@bluebash.com", "Welcome to the assignment!", false)
  const DefaultSubject: string := "New system notification"
  const InvalidAddress: string := "Please enter a valid email address."
  const AddressHint: string := "Enter a valid email (e.g. user@domain.com)."

  // -------------------------------------------------------------- the list

  /**
   * `toggleRead(id)`: flips `read` on every entry whose id is `id` (several,
   * should two ids collide) and changes nothing else.
   */
  function WithReadToggled(emails: seq<Email>, id: int): (r: seq<Email>)
    ensures |r| == |emails|
    ensures forall i :: 0 <= i < |r| ==>
      r[i].id == emails[i].id && r[i].from == emails[i].from && r[i].subject == emails[i].subject &&
      (r[i].read != emails[i].read <==> emails[i].id == id)
    decreases |emails|
  {
    if emails == [] then []
    else
      var e := emails[0];
      [if e.id == id then e.(read := !e.read) else e] + WithReadToggled(emails[1..], id)
  }

  /** Toggling the same id twice gives the list back. */
  lemma ToggleTwice(emails: seq<Email>, id: int)
    ensures WithReadToggled(WithReadToggled(emails, id), id) == emails
  {
  }

  /** `emails.filter(e => !e.read)`. */
  function UnreadOf(emails: seq<Email>): (r: seq<Email>)
    ensures |r| <= |emails|
    ensures forall i :: 0 <= i < |r| ==> !r[i].read
    ensures forall e :: e in r ==> e in emails
    ensures forall e :: e in emails && !e.read ==> e in r
    decreases |emails|
  {
    if emails == [] then []
    else (if emails[0].read then [] else [emails[0]]) + UnreadOf(emails[1..])
  }

  /** `unreadCount`: the number of entries whose `read` is false. */
  function UnreadCount(emails: seq<Email>): (n: nat)
    ensures n == |UnreadPositions(emails)|
  {
    UnreadOfCounts(emails);
    |UnreadOf(emails)|
  }

  /**
   * `filtered`, the list the inbox shows: under 'all' the whole list; under
   * 'unread' an order-preserving subsequence holding every unread entry and
   * nothing else, as long as the badge's count.
   */
  function Filtered(emails: seq<Email>, filter: Filter): (r: seq<Email>)
    ensures filter == All ==> r == emails
    ensures filter == Unread ==>
      |r| == UnreadCount(emails) && IsSubsequence(r, emails) &&
      (forall i :: 0 <= i < |r| ==> !r[i].read) &&
      (forall e :: e in emails && !e.read ==> e in r)
  {
    UnreadIsSubsequence(emails);
    if filter == Unread then UnreadOf(emails) else emails
  }

  /** The positions of the unread entries. */
  function UnreadPositions(emails: seq<Email>): set<nat> {
    set i: nat | i < |emails| && !emails[i].read
  }

  /** `a` is `b` with some entries left out, the rest kept in order. */
  predicate IsSubsequence<T(==)>(a: seq<T>, b: seq<T>)
    decreases |b|
  {
    a == [] ||
    (b != [] && ((a[0] == b[0] && IsSubsequence(a[1..], b[1..])) || IsSubsequence(a, b[1..])))
  }

  lemma {:induction false} UnreadOfAppend(emails: seq<Email>, e: Email)
    ensures UnreadOf(emails + [e]) == UnreadOf(emails) + (if e.read then [] else [e])
    decreases |emails|
  {
    var s := emails + [e];
    if emails != [] {
      assert s[0] == emails[0] && s[1..] == emails[1..] + [e];
      UnreadOfAppend(emails[1..], e);
      var head := if emails[0].read then [] else [emails[0]];
      assert UnreadOf(s) == head + UnreadOf(emails[1..] + [e]);
      assert UnreadOf(emails) == head + UnreadOf(emails[1..]);
    } else {
      assert s == [e] && s[1..] == [];
    }
  }

  /** The unread filter keeps one entry per unread position. */
  lemma {:induction false} UnreadOfCounts(emails: seq<Email>)
    ensures |UnreadOf(emails)| == |UnreadPositions(emails)|
    decreases |emails|
  {
    if emails == [] {
      assert UnreadPositions(emails) == {};
    } else {
      var n := |emails| - 1;
      var init, last := emails[..n], emails[n];
      assert emails == init + [last];
      UnreadOfAppend(init, last);
      UnreadOfCounts(init);
      UnreadPositionsAppend(init, last);
    }
  }

  lemma UnreadPositionsAppend(init: seq<Email>, last: Email)
    ensures |UnreadPositions(init + [last])| == |UnreadPositions(init)| + (if last.read then 0 else 1)
  {
    var n := |init|;
    var before, after := UnreadPositions(init), UnreadPositions(init + [last]);
    assert forall i: nat :: i < n ==> (init + [last])[i] == init[i];
    if last.read {
      assert after == before;
    } else {
      assert n !in before;
      assert after == before + {n};
    }
  }

  /** The unread view keeps the order of the list. */
  lemma {:induction false} UnreadIsSubsequence(emails: seq<Email>)
    ensures IsSubsequence(UnreadOf(emails), emails)
    decreases |emails|
  {
    if emails != [] {
      UnreadIsSubsequence(emails[1..]);
      var r := UnreadOf(emails);
      if !emails[0].read {
        assert r[0] == emails[0] && r[1..] == UnreadOf(emails[1..]);
      } else {
        assert r == UnreadOf(emails[1..]);
      }
    }
  }

  /** The filter button: 'unread' becomes 'all', anything else 'unread'. */
  function Flipped(f: Filter): (r: Filter)
    ensures r != f
  {
    if f == Unread then All else Unread
  }

  // --------------------------------------------------------- the To field

  /** The line under the To field after the user types `v`. */
  function ToFieldError(v: string): (r: string)
    ensures r == [] <==> v == [] || IsValidEmail(v)
  {
    if v != [] && !IsValidEmail(v) then AddressHint else ""
  }

  /**
   * The guard of `addEmail`: the To field is not blank after trimming and is
   * a valid address. An accepted address is its own trim.
   */
  function Accepted(to: string): (r: bool)
    ensures r <==> !IsBlank(to) && IsValidEmail(to)
    ensures r ==> Trim(to) == to
  {
    if Trim(to) == [] || !IsValidEmail(to) then false
    else ValidEmailIsTrimmed(to); true
  }

  /**
   * The Send button's `disabled`. An enabled button has a To field that is
   * not blank and, in a consistent form, lets `addEmail` pass its guard.
   */
  predicate SendDisabled(c: Compose, toError: string): (r: bool)
    ensures !r ==> !IsBlank(c.to) && (FormConsistent(c, toError) ==> Accepted(c.to))
  {
    IsBlank(c.to) || toError != []
  }

  /** Right after typing, Send is enabled exactly when the To field holds a valid address. */
  lemma SendEnabledAfterTyping(v: string, subject: string)
    ensures !SendDisabled(Compose(v, subject), ToFieldError(v)) <==> IsValidEmail(v)
  {
  }

  /** Whenever the form shows no error, the To field is empty or valid. */
  ghost predicate FormConsistent(c: Compose, toError: string) {
    toError == [] ==> c.to == [] || IsValidEmail(c.to)
  }

  // ---------------------------------------------------------- the component

  class EmailApp {
    var emails: seq<Email>
    var filter: Filter
    var compose: Compose
    var toError: string
    var lastChat: Option<string>

    ghost predicate Valid()
      reads this
    {
      FormConsistent(compose, toError)
    }

    /** The state at mount. */
    constructor ()
      ensures Valid()
      ensures emails == [Welcome] && filter == All && compose == Compose("", "")
      ensures toError == "" && lastChat == None
    {
      emails := [Welcome];
      filter := All;
      compose := Compose("", "");
      toError := "";
      lastChat := None;
    }

    /**
     * `addEmail`: a blank or invalid To field only sets the error line;
     * otherwise one unread email from that address is appended, the form is
     * cleared and the error line emptied. `now` stands for `Date.now()`.
     */
    method AddEmail(now: int)
      requires Valid()
      modifies this
      ensures Valid()
      ensures filter == old(filter) && lastChat == old(lastChat)
      ensures !Accepted(old(compose.to)) ==>
        emails == old(emails) && compose == old(compose) && toError == InvalidAddress
      ensures Accepted(old(compose.to)) ==>
        emails == old(emails) + [Email(now, old(compose.to),
                                       if old(compose.subject) == [] then DefaultSubject else old(compose.subject),
                                       false)] &&
        compose == Compose("", "") && toError == ""
    {
      if !Accepted(compose.to) {
        toError := InvalidAddress;
        return;
      }
      var subject := if compose.subject == [] then DefaultSubject else compose.subject;
      emails := emails + [Email(now, Trim(compose.to), subject, false)];
      compose := Compose("", "");
      toError := "";
    }

    /** The Mark Read / Mark Unread button of the entry with this id. */
    method ToggleRead(id: int)
      requires Valid()
      modifies this
      ensures Valid()
      ensures emails == WithReadToggled(old(emails), id)
      ensures filter == old(filter) && compose == old(compose) && toError == old(toError) && lastChat == old(lastChat)
    {
      emails := WithReadToggled(emails, id);
    }

    /** The Show Unread / Show All button. */
    method ToggleFilter()
      requires Valid()
      modifies this
      ensures Valid()
      ensures filter == Flipped(old(filter))
      ensures emails == old(emails) && compose == old(compose) && toError == old(toError) && lastChat == old(lastChat)
    {
      filter := Flipped(filter);
    }

    /** The To field's `onChange`. */
    method OnToChange(v: string)
      requires Valid()
      modifies this
      ensures Valid()
      ensures compose == old(compose).(to := v) && toError == ToFieldError(v)
      ensures emails == old(emails) && filter == old(filter) && lastChat == old(lastChat)
    {
      compose := compose.(to := v);
      toError := ToFieldError(v);
    }

    /** The Subject field's `onChange`; the error line stays as it was. */
    method OnSubjectChange(v: string)
      requires Valid()
      modifies this
      ensures Valid()
      ensures compose == old(compose).(subject := v)
      ensures emails == old(emails) && filter == old(filter) && toError == old(toError) && lastChat == old(lastChat)
    {
      compose := compose.(subject := v);
    }

    /** The listener this component registers under "chat:new-message" while mounted. */
    method OnChatMessage(p: Payload)
      requires Valid()
      modifies this
      ensures Valid()
      ensures lastChat == TextOf(p)
      ensures emails == old(emails) && filter == old(filter) && compose == old(compose) && toError == old(toError)
    {
      lastChat := TextOf(p);
    }
  }
}
