/** The admin overview page: the project and unread-message counters with
    their labels, and which of spinner, login redirect or statistics is
    shown. The fetched lists arrive as `None` while there is no data. */
module AdminDashboard {
  import opened Wrappers
  import opened Tables
  import opened Schema
  import Storage

  /** The unread counter: 0 without data, otherwise how many messages are
      unread, never more than there are messages. */
  function UnreadCount(messages: Option<seq<Message>>): (n: nat)
    ensures messages.None? ==> n == 0
    ensures messages.Some? ==>
      && n <= |messages.value|
      && (n == 0 <==> forall i :: 0 <= i < |messages.value| ==> messages.value[i].read == Some(true))
      && (n == |messages.value| <==> forall i :: 0 <= i < |messages.value| ==> messages.value[i].read != Some(true))
  {
    match messages
    case None => 0
    case Some(ms) => Count(ms, IsUnread)
  }

  /** `projects?.length || 0`. */
  function ProjectCount(projects: Option<seq<Project>>): (n: nat)
    ensures projects.None? ==> n == 0
    ensures projects.Some? ==> n == |projects.value|
  {
    if projects.Some? then |projects.value| else 0
  }

  /** Singular only for exactly one project; no data reads as plural. */
  function ProjectLabel(projects: Option<seq<Project>>): (text: string)
    ensures text == "Project" <==> projects.Some? && |projects.value| == 1
    ensures text != "Project" ==> text == "Projects"
  {
    if projects.Some? && |projects.value| == 1 then "Project" else "Projects"
  }

  function UnreadLabel(unread: nat): (text: string)
    ensures text == "Unread Message" <==> unread == 1
    ensures text != "Unread Message" ==> text == "Unread Messages"
  {
    if unread == 1 then "Unread Message" else "Unread Messages"
  }

  /** What the page shows. */
  datatype View =
    | FullPageSpinner
    | RedirectToLogin
    | Spinner
    | Stats(projectCount: nat, projectLabel: string, unread: nat, unreadLabel: string)

  predicate IsLoading(authLoading: bool, projectsLoading: bool, messagesLoading: bool) {
    authLoading || projectsLoading || messagesLoading
  }

  /** The page: a full-page spinner while the session is checked, a
      redirect to the login route when there is none, a spinner while
      either list loads, and the counters otherwise. */
  function Render(authLoading: bool, authenticated: bool, projectsLoading: bool,
                  messagesLoading: bool, projects: Option<seq<Project>>,
                  messages: Option<seq<Message>>): (v: View)
    ensures authLoading <==> v.FullPageSpinner?
    ensures v.RedirectToLogin? <==> !authLoading && !authenticated
    ensures v.Stats? <==> authenticated && !IsLoading(authLoading, projectsLoading, messagesLoading)
    ensures v.Stats? ==>
      && v.projectCount == ProjectCount(projects)
      && v.unread == UnreadCount(messages)
      && (v.projectLabel == "Project" <==> v.projectCount == 1 && projects.Some?)
      && (v.unreadLabel == "Unread Message" <==> v.unread == 1)
  {
    if authLoading then FullPageSpinner
    else if !authenticated then RedirectToLogin
    else if IsLoading(authLoading, projectsLoading, messagesLoading) then Spinner
    else
      var unread := UnreadCount(messages);
      Stats(ProjectCount(projects), ProjectLabel(projects), unread, UnreadLabel(unread))
  }

  /** Marking a message read in the store lowers the unread counter by one
      when that message was unread and leaves it alone otherwise. */
  lemma MarkReadLowersUnread(st: Storage.Store, id: int)
    requires Storage.Valid(st)
    ensures var after := Storage.MarkMessageAsRead(st, id).0;
      UnreadCount(Some(after.messages)) + (if UnreadWithId(st.messages, id) then 1 else 0)
        == UnreadCount(Some(st.messages))
  {
    var after := Storage.MarkMessageAsRead(st, id).0;
    if HasKey(st.messages, MessageId, id) {
      var k :| 0 <= k < |st.messages| && st.messages[k].id == id;
      var m := st.messages[k];
      assert after.messages == st.messages[k := m.(read := Some(true))] by {
        forall i | 0 <= i < |st.messages|
          ensures after.messages[i] == st.messages[k := m.(read := Some(true))][i]
        {
          if i != k {
            assert st.messages[i].id != id;
          }
        }
      }
      CountUpdate(st.messages, k, m.(read := Some(true)), IsUnread);
      assert UnreadWithId(st.messages, id) <==> IsUnread(m) by {
        if UnreadWithId(st.messages, id) {
          var j :| 0 <= j < |st.messages| && st.messages[j].id == id && IsUnread(st.messages[j]);
          assert j == k;
        }
      }
    }
  }

  predicate UnreadWithId(messages: seq<Message>, id: int) {
    exists i :: 0 <= i < |messages| && messages[i].id == id && IsUnread(messages[i])
  }
}
