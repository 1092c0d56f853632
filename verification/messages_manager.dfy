/** The admin inbox as a state machine: marking a message read, choosing
    one to delete, confirming or dismissing the dialog, and the outcome of
    the delete request. A click that sends a request returns it; the
    request's outcome comes back as its own event. The dialog's own close
    (its cancel button, escape, a click outside) is `DialogDismissed`. */
module MessagesManager {
  import opened Wrappers
  import opened Schema
  import Storage

  /** The page's one piece of state: the message awaiting confirmation of
      its deletion, if any. */
  datatype Inbox = Inbox(toDelete: Option<Message>)

  const InitialInbox := Inbox(None)

  datatype Request =
    | MarkReadRequest(id: int)
    | DeleteRequest(id: int)

  datatype Event =
    | MarkAsReadClicked(message: Message)
    | DeleteClicked(message: Message)
    | ConfirmDelete
    | DialogDismissed
    | DeleteSettled(success: bool)

  /** One event: the next inbox state and the request it sends, if any. */
  function Step(s: Inbox, e: Event): (r: (Inbox, Option<Request>))
    ensures e.MarkAsReadClicked? ==>
      && (r.1.Some? <==> IsUnread(e.message))
      && (r.1.Some? ==> r.1.value == MarkReadRequest(e.message.id))
      && r.0 == s
    ensures e.DeleteClicked? ==> r.0 == s.(toDelete := Some(e.message)) && r.1.None?
    ensures e.ConfirmDelete? ==>
      && (r.1.Some? <==> s.toDelete.Some?)
      && (s.toDelete.Some? ==> r.1.value == DeleteRequest(s.toDelete.value.id))
      && r.0.toDelete.None?
    ensures e.DialogDismissed? ==> r.0 == s.(toDelete := None) && r.1.None?
    ensures e.DeleteSettled? ==>
      && r.1.None?
      && (e.success ==> r.0.toDelete.None?)
      && (!e.success ==> r.0.toDelete == s.toDelete)
  {
    match e
    case MarkAsReadClicked(m) =>
      if IsUnread(m) then (s, Some(MarkReadRequest(m.id))) else (s, None)
    case DeleteClicked(m) => (s.(toDelete := Some(m)), None)
    case ConfirmDelete =>
      // The dialog's action button runs the confirm handler and then closes
      // the dialog, whose close handler clears the pending message.
      var request := if s.toDelete.Some? then Some(DeleteRequest(s.toDelete.value.id)) else None;
      (s.(toDelete := None), request)
    case DialogDismissed => (s.(toDelete := None), None)
    case DeleteSettled(success) =>
      if success then (s.(toDelete := None), None) else (s, None)
  }

  /** The confirmation dialog is open exactly while a message awaits it. */
  predicate DialogOpen(s: Inbox) {
    s.toDelete.Some?
  }

  predicate IsLoading(authLoading: bool, messagesLoading: bool) {
    authLoading || messagesLoading
  }

  /** Choosing delete sends nothing yet and opens the dialog; confirming
      then deletes exactly that message; dismissing instead closes the
      dialog with nothing sent. */
  lemma DeleteNeedsConfirmation(s: Inbox, m: Message)
    ensures var (s1, r1) := Step(s, DeleteClicked(m));
      && r1.None? && DialogOpen(s1)
      && Step(s1, ConfirmDelete).1 == Some(DeleteRequest(m.id))
      && Step(s1, DialogDismissed).1.None?
      && !DialogOpen(Step(s1, DialogDismissed).0)
  {
  }

  /** Confirming closes the dialog at once, so it stays closed whatever
      the delete's outcome, and a second confirm sends nothing: retrying a
      failed delete means choosing the message again. */
  lemma DeleteOutcome(s: Inbox, success: bool)
    requires s.toDelete.Some?
    ensures var (s1, r1) := Step(s, ConfirmDelete);
      var s2 := Step(s1, DeleteSettled(success)).0;
      && r1 == Some(DeleteRequest(s.toDelete.value.id))
      && !DialogOpen(s1) && !DialogOpen(s2)
      && Step(s2, ConfirmDelete).1.None?
  {
  }

  /** Once the store has marked a message read, clicking it again with the
      refreshed copy sends nothing. */
  lemma MarkReadOnce(st: Storage.Store, id: int)
    requires Storage.Valid(st) && Storage.GetMessageById(st, id).Some?
    ensures var after := Storage.MarkMessageAsRead(st, id).0;
      var m := Storage.GetMessageById(after, id);
      && m.Some?
      && Step(InitialInbox, MarkAsReadClicked(m.value)).1.None?
  {
    var after := Storage.MarkMessageAsRead(st, id).0;
    var m := Storage.GetMessageById(after, id);
    var i :| 0 <= i < |after.messages| && after.messages[i] == m.value;
  }
}
