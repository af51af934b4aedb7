/**
 * The in-memory stores of backend/app.py (`groups`, `group_members`, `tasks`,
 * `messages`) and the route handlers that read and update them. HTTP replies are
 * modelled by the Outcome datatype; `uuid4` ids and `datetime.now()` timestamps
 * are parameters.
 */
module Planner {
  import opened Wrappers
  import opened Names
  import opened Users

  type GroupId = string
  type TaskId = string
  type MessageId = string

  /** The description stored when the request has no `description` key (app.py:122). */
  const DefaultDescription: string := "Nincs leírás megadva."

  /** The name shown for an id that has no user (app.py:267-268). */
  const UnknownUsername: string := "Ismeretlen"

  /** `None` in `name` or `description` is JSON null. */
  datatype Group = Group(id: GroupId, name: Option<string>, description: Option<string>,
                         creatorId: UserId, creatorUsername: string, members: seq<UserId>)

  /** The request fields a task stores without interpreting them. */
  datatype TaskFields = TaskFields(title: Option<string>, kind: Option<string>,
                                   deadline: Option<string>, reminderDays: Option<int>,
                                   description: Option<string>, onlineLink: Option<string>)

  /** `groupId == None` is a personal task. */
  datatype Task = Task(id: TaskId, groupId: Option<GroupId>, fields: TaskFields, creatorId: UserId)

  datatype Message = Message(id: MessageId, senderId: UserId, recipientId: UserId,
                             content: Option<string>, timestamp: int, isRead: bool)

  /** One entry of the list `get_user_messages` returns. */
  datatype MessageView = MessageView(id: MessageId, content: Option<string>, timestamp: int,
                                     isRead: bool, isSentByMe: bool,
                                     senderUsername: string, recipientUsername: string)

  /** What a handler answers; StatusCode gives the HTTP status the source sends. */
  datatype Outcome =
    | Registered(username: string)
    | LoggedIn(userId: UserId, username: string, fullName: string)
    | GroupCreated(groupId: GroupId)
    | GroupDeleted
    | AlreadyMember
    | Joined
    | TaskAdded(taskId: TaskId)
    | TaskDeleted
    | MessageSent
    | MessageDeleted
    | MissingData
    | GenerationFailed
    | EmailTaken
    | ServerError
    | InvalidCredentials
    | InvalidCreator
    | SenderNotFound
    | GroupNotFound
    | UserNotFound
    | TaskNotFound
    | RecipientNotFound
    | MessageNotFound

  /** The status each route sends with an outcome: 201 for a creation, 200 for the
      other successes, 4xx for a refused request and 500 for a failed commit. */
  function StatusCode(o: Outcome): (r: int)
    ensures r in {200, 201, 400, 401, 404, 409, 500}
    ensures r < 300 <==> !o.MissingData? && !o.GenerationFailed? && !o.EmailTaken? && !o.ServerError?
                         && !o.InvalidCredentials? && !o.InvalidCreator? && !o.SenderNotFound?
                         && !o.GroupNotFound? && !o.UserNotFound? && !o.TaskNotFound?
                         && !o.RecipientNotFound? && !o.MessageNotFound?
  {
    match o
    case Registered(_) => 201
    case GroupCreated(_) => 201
    case TaskAdded(_) => 201
    case MessageSent => 201
    case LoggedIn(_, _, _) => 200
    case GroupDeleted => 200
    case AlreadyMember => 200
    case Joined => 200
    case TaskDeleted => 200
    case MessageDeleted => 200
    case MissingData => 400
    case GenerationFailed => 400
    case InvalidCreator => 400
    case SenderNotFound => 400
    case InvalidCredentials => 401
    case EmailTaken => 409
    case ServerError => 500
    case GroupNotFound => 404
    case UserNotFound => 404
    case TaskNotFound => 404
    case RecipientNotFound => 404
    case MessageNotFound => 404
  }

  // ---------------------------------------------------------------------------
  // Users as the handlers see them

  function UserIds(rows: seq<User>): set<UserId> {
    set i | 0 <= i < |rows| :: rows[i].id
  }

  lemma UserIdsFind(rows: seq<User>, id: UserId)
    ensures id in UserIds(rows) <==> Find(rows, Id, id).Some?
  {
    if id in UserIds(rows) {
      var i :| 0 <= i < |rows| && rows[i].id == id;
      assert Field(rows[i], Id) == id;
    }
  }

  lemma UserIdsAppend(rows: seq<User>, u: User)
    ensures UserIds(rows + [u]) == UserIds(rows) + {u.id}
  {
    var t := rows + [u];
    assert t[|rows|] == u;
    forall id | id in UserIds(rows) ensures id in UserIds(t) {
      var i :| 0 <= i < |rows| && rows[i].id == id;
      assert t[i] == rows[i];
    }
  }

  /** `user_lookup.get(id, 'Ismeretlen')`, where `user_lookup` maps ids to usernames. */
  function UsernameOrUnknown(rows: seq<User>, id: UserId): (name: string)
    ensures id in UserIds(rows) ==> name in Usernames(rows)
    ensures id !in UserIds(rows) ==> name == UnknownUsername
    ensures Unique(rows, Id) ==> forall i :: 0 <= i < |rows| && rows[i].id == id ==> name == rows[i].username
  {
    UserIdsFind(rows, id);
    match Find(rows, Id, id)
    case Some(user) =>
      var i :| 0 <= i < |rows| && rows[i] == user;
      user.username
    case None => UnknownUsername
  }

  // ---------------------------------------------------------------------------
  // Listings (pure comprehensions over the stores)

  /** `get_tasks_by_group(group_id)` */
  function TasksByGroup(tasks: map<TaskId, Task>, g: Option<GroupId>): (r: set<Task>)
    ensures forall t :: t in r ==> t.groupId == g && t in tasks.Values
  {
    set id | id in tasks && tasks[id].groupId == g :: tasks[id]
  }

  /** `get_user_personal_tasks(user_id)`: the group-less tasks the user created. */
  function PersonalTasks(tasks: map<TaskId, Task>, u: UserId): (r: set<Task>)
    ensures forall t :: t in r ==> t.groupId.None? && t.creatorId == u && t in tasks.Values
  {
    set t | t in TasksByGroup(tasks, None) && t.creatorId == u
  }

  /** `get_user_groups(user_id)`: the groups whose member list holds the user. */
  function GroupsOfUser(groups: map<GroupId, Group>, u: UserId): (r: set<Group>)
    ensures forall gr :: gr in r ==> u in gr.members && gr in groups.Values
    ensures forall g :: g in groups && u in groups[g].members ==> groups[g] in r
  {
    set g | g in groups && u in groups[g].members :: groups[g]
  }

  /** A stored task is listed for its group and only there, and it is personal for its
      creator exactly when it has no group. */
  lemma TaskListingsExact(tasks: map<TaskId, Task>, id: TaskId, g: Option<GroupId>, u: UserId)
    requires id in tasks
    ensures tasks[id] in TasksByGroup(tasks, g) <==> tasks[id].groupId == g
    ensures tasks[id] in PersonalTasks(tasks, u) <==> tasks[id].groupId.None? && tasks[id].creatorId == u
  {
  }

  /** A group task never appears in a personal listing. */
  lemma GroupAndPersonalDisjoint(tasks: map<TaskId, Task>, g: GroupId, u: UserId)
    ensures TasksByGroup(tasks, Some(g)) !! PersonalTasks(tasks, u)
  {
  }

  /** The ids of the tasks of group `g` (`tasks_to_delete`, app.py:145). */
  function GroupTaskIds(tasks: map<TaskId, Task>, g: GroupId): set<TaskId> {
    set id | id in tasks && tasks[id].groupId == Some(g)
  }

  /** The task store after the cascade of `delete_group(g)`. */
  function WithoutGroupTasks(tasks: map<TaskId, Task>, g: GroupId): map<TaskId, Task> {
    tasks - GroupTaskIds(tasks, g)
  }

  /** The cascade removes exactly the tasks of the group: the group's listing becomes
      empty and every other listing is what it was. */
  lemma CascadeRemovesExactlyGroupTasks(tasks: map<TaskId, Task>, g: GroupId)
    ensures var rest := WithoutGroupTasks(tasks, g);
              && (forall id :: id in rest <==> id in tasks && tasks[id].groupId != Some(g))
              && (forall id :: id in rest ==> rest[id] == tasks[id])
              && TasksByGroup(rest, Some(g)) == {}
  {
  }

  lemma CascadeKeepsOtherListings(tasks: map<TaskId, Task>, g: GroupId, other: Option<GroupId>, u: UserId)
    requires other != Some(g)
    ensures TasksByGroup(WithoutGroupTasks(tasks, g), other) == TasksByGroup(tasks, other)
    ensures PersonalTasks(WithoutGroupTasks(tasks, g), u) == PersonalTasks(tasks, u)
  {
    var rest := WithoutGroupTasks(tasks, g);
    assert forall t :: t in TasksByGroup(tasks, other) ==> t in TasksByGroup(rest, other) by {
      forall t | t in TasksByGroup(tasks, other) ensures t in TasksByGroup(rest, other) {
        var id :| id in tasks && tasks[id].groupId == other && tasks[id] == t;
        assert id in rest;
      }
    }
    assert forall t :: t in TasksByGroup(tasks, None) ==> t in TasksByGroup(rest, None) by {
      forall t | t in TasksByGroup(tasks, None) ensures t in TasksByGroup(rest, None) {
        var id :| id in tasks && tasks[id].groupId == None && tasks[id] == t;
        assert id in rest;
      }
    }
  }

  // ---------------------------------------------------------------------------
  // The message list of a user

  predicate Involves(m: Message, u: UserId) {
    m.senderId == u || m.recipientId == u
  }

  /** The ids among `ids` of stored messages that `u` sent or received. */
  function Involved(messages: map<MessageId, Message>, ids: set<MessageId>, u: UserId): set<MessageId> {
    set id | id in ids && id in messages && Involves(messages[id], u)
  }

  lemma InvolvedStep(messages: map<MessageId, Message>, done: set<MessageId>, id: MessageId, u: UserId)
    requires id in messages && id !in done
    ensures Involves(messages[id], u) ==> Involved(messages, done + {id}, u) == Involved(messages, done, u) + {id}
    ensures Involves(messages[id], u) ==> |Involved(messages, done + {id}, u)| == |Involved(messages, done, u)| + 1
    ensures !Involves(messages[id], u) ==> Involved(messages, done + {id}, u) == Involved(messages, done, u)
  {
    if Involves(messages[id], u) {
      assert Involved(messages, done + {id}, u) == Involved(messages, done, u) + {id};
      assert id !in Involved(messages, done, u);
    }
  }

  /** `v` is the entry for a stored message that `u` sent or received. */
  predicate IsViewFor(v: MessageView, messages: map<MessageId, Message>, u: UserId, rows: seq<User>) {
    v.id in messages && Involves(messages[v.id], u) && v == View(messages[v.id], u, rows)
  }

  /** The entry of a message between users names both of them. */
  lemma ViewNames(v: MessageView, messages: map<MessageId, Message>, u: UserId, rows: seq<User>)
    requires IsViewFor(v, messages, u, rows) && MessagesValid(messages, UserIds(rows))
    ensures v.isSentByMe <==> messages[v.id].senderId == u
    ensures v.senderUsername in Usernames(rows) && v.recipientUsername in Usernames(rows)
    ensures Unique(rows, Id) ==>
              forall j :: 0 <= j < |rows| ==>
                && (rows[j].id == messages[v.id].senderId ==> v.senderUsername == rows[j].username)
                && (rows[j].id == messages[v.id].recipientId ==> v.recipientUsername == rows[j].username)
  {
    var m := messages[v.id];
    assert m.senderId in UserIds(rows) && m.recipientId in UserIds(rows);
  }

  /** Reordering what `CollectViews` gathered keeps it complete. */
  lemma CollectedPermuted(collected: seq<MessageView>, r: seq<MessageView>,
                          messages: map<MessageId, Message>, u: UserId, rows: seq<User>)
    requires Collected(collected, messages.Keys, messages, u, rows)
    requires multiset(r) == multiset(collected)
    ensures Collected(r, messages.Keys, messages, u, rows)
  {
    SameElements(collected, r);
    forall i | 0 <= i < |r| ensures IsViewFor(r[i], messages, u, rows) {
      var j :| 0 <= j < |collected| && collected[j] == r[i];
    }
    forall id | id in messages && Involves(messages[id], u)
      ensures exists i :: 0 <= i < |r| && r[i].id == id
    {
      var j :| 0 <= j < |collected| && collected[j].id == id;
      var i :| 0 <= i < |r| && r[i] == collected[j];
    }
  }

  lemma SameElements(a: seq<MessageView>, b: seq<MessageView>)
    requires multiset(a) == multiset(b)
    ensures |a| == |b|
    ensures forall i :: 0 <= i < |b| ==> b[i] in a
    ensures forall i :: 0 <= i < |a| ==> a[i] in b
  {
    assert |a| == |multiset(a)| == |multiset(b)| == |b|;
    forall i | 0 <= i < |b| ensures b[i] in a {
      assert b[i] in multiset(a);
    }
    forall i | 0 <= i < |a| ensures a[i] in b {
      assert a[i] in multiset(b);
    }
  }

  function View(m: Message, u: UserId, rows: seq<User>): MessageView {
    MessageView(m.id, m.content, m.timestamp, m.isRead, m.senderId == u,
                UsernameOrUnknown(rows, m.senderId), UsernameOrUnknown(rows, m.recipientId))
  }

  predicate SortedByTimeDesc(s: seq<MessageView>) {
    forall i, j :: 0 <= i < j < |s| ==> s[i].timestamp >= s[j].timestamp
  }

  /** Inserts `v` before the first entry that is not newer than it. */
  function InsertByTime(v: MessageView, s: seq<MessageView>): (r: seq<MessageView>)
    ensures multiset(r) == multiset(s) + multiset{v}
  {
    if s == [] || s[0].timestamp <= v.timestamp then [v] + s
    else
      assert s == [s[0]] + s[1..];
      [s[0]] + InsertByTime(v, s[1..])
  }

  /** No entry of `s` is newer than `t`. */
  predicate NotNewerThan(s: seq<MessageView>, t: int) {
    forall k :: 0 <= k < |s| ==> s[k].timestamp <= t
  }

  lemma SortedCons(x: MessageView, s: seq<MessageView>)
    requires SortedByTimeDesc(s) && NotNewerThan(s, x.timestamp)
    ensures SortedByTimeDesc([x] + s)
  {
    var r := [x] + s;
    assert forall k :: 1 <= k < |r| ==> r[k] == s[k - 1];
  }

  lemma {:induction false} InsertByTimeNotNewer(v: MessageView, s: seq<MessageView>, t: int)
    requires NotNewerThan(s, t) && v.timestamp <= t
    ensures NotNewerThan(InsertByTime(v, s), t)
  {
    if s != [] && s[0].timestamp > v.timestamp {
      InsertByTimeNotNewer(v, s[1..], t);
      var r := InsertByTime(v, s);
      assert r == [s[0]] + InsertByTime(v, s[1..]);
      assert forall k :: 1 <= k < |r| ==> r[k] == InsertByTime(v, s[1..])[k - 1];
    }
  }

  lemma {:induction false} InsertByTimeSorted(v: MessageView, s: seq<MessageView>)
    requires SortedByTimeDesc(s)
    ensures SortedByTimeDesc(InsertByTime(v, s))
  {
    if s == [] || s[0].timestamp <= v.timestamp {
      if s != [] {
        assert NotNewerThan(s, v.timestamp);
      }
      SortedCons(v, s);
    } else {
      var rest := s[1..];
      assert SortedByTimeDesc(rest);
      assert NotNewerThan(rest, s[0].timestamp);
      InsertByTimeSorted(v, rest);
      InsertByTimeNotNewer(v, rest, s[0].timestamp);
      SortedCons(s[0], InsertByTime(v, rest));
    }
  }

  /** `user_messages.sort(key=timestamp, reverse=True)`: newest first. */
  function SortByTimeDesc(s: seq<MessageView>): (r: seq<MessageView>)
    ensures SortedByTimeDesc(r)
    ensures multiset(r) == multiset(s)
  {
    if s == [] then []
    else
      assert s == [s[0]] + s[1..];
      InsertByTimeSorted(s[0], SortByTimeDesc(s[1..]));
      InsertByTime(s[0], SortByTimeDesc(s[1..]))
  }

  // ---------------------------------------------------------------------------
  // The application state

  /** No value occurs twice. */
  predicate NoDuplicates(s: seq<UserId>) {
    forall i, j :: 0 <= i < j < |s| ==> s[i] != s[j]
  }

  /** What every stored group satisfies: it is stored under its own id, the member
      list in the group equals the `group_members` entry, starts with the creator,
      holds no id twice and only ids of users. */
  predicate GroupInvariant(g: GroupId, gr: Group, mirror: seq<UserId>, ids: set<UserId>) {
    && gr.id == g
    && gr.members == mirror
    && |gr.members| > 0 && gr.members[0] == gr.creatorId
    && NoDuplicates(gr.members)
    && forall k :: 0 <= k < |gr.members| ==> gr.members[k] in ids
  }

  predicate GroupsValid(groups: map<GroupId, Group>, groupMembers: map<GroupId, seq<UserId>>, ids: set<UserId>) {
    && groupMembers.Keys == groups.Keys
    && forall g :: g in groups ==> GroupInvariant(g, groups[g], groupMembers[g], ids)
  }

  /** Every task is stored under its own id and was created by a user. */
  predicate TasksValid(tasks: map<TaskId, Task>, ids: set<UserId>) {
    forall t :: t in tasks ==> tasks[t].id == t && tasks[t].creatorId in ids
  }

  /** Every message is stored under its own id and is between users. */
  predicate MessagesValid(messages: map<MessageId, Message>, ids: set<UserId>) {
    forall m :: m in messages ==>
      && messages[m].id == m
      && messages[m].senderId in ids
      && messages[m].recipientId in ids
  }

  /** Appending a new user to a member list keeps the group invariant. */
  lemma JoinKeepsGroupInvariant(g: GroupId, gr: Group, id: UserId, ids: set<UserId>)
    requires GroupInvariant(g, gr, gr.members, ids) && id !in gr.members && id in ids
    ensures GroupInvariant(g, gr.(members := gr.members + [id]), gr.members + [id], ids)
  {
    var m := gr.members + [id];
    assert forall k :: 0 <= k < |gr.members| ==> m[k] == gr.members[k];
  }

  /** The group invariants hold as well for a larger set of user ids. */
  lemma GroupsValidMonotone(groups: map<GroupId, Group>, groupMembers: map<GroupId, seq<UserId>>,
                            ids: set<UserId>, more: set<UserId>)
    requires GroupsValid(groups, groupMembers, ids) && ids <= more
    ensures GroupsValid(groups, groupMembers, more)
  {
  }

  lemma GroupsValidRemove(groups: map<GroupId, Group>, groupMembers: map<GroupId, seq<UserId>>,
                          g: GroupId, ids: set<UserId>)
    requires GroupsValid(groups, groupMembers, ids)
    ensures GroupsValid(groups - {g}, groupMembers - {g}, ids)
  {
  }

  /** Storing a fresh group that satisfies the group invariant keeps the stores valid. */
  lemma GroupsValidInsert(groups: map<GroupId, Group>, groupMembers: map<GroupId, seq<UserId>>,
                          g: GroupId, gr: Group, ids: set<UserId>)
    requires GroupsValid(groups, groupMembers, ids) && GroupInvariant(g, gr, gr.members, ids)
    ensures GroupsValid(groups[g := gr], groupMembers[g := gr.members], ids)
  {
  }

  lemma MessagesValidInsert(messages: map<MessageId, Message>, m: Message, ids: set<UserId>)
    requires MessagesValid(messages, ids) && m.senderId in ids && m.recipientId in ids
    ensures MessagesValid(messages[m.id := m], ids)
  {
  }

  lemma TasksValidRemove(tasks: map<TaskId, Task>, gone: set<TaskId>, ids: set<UserId>)
    requires TasksValid(tasks, ids)
    ensures TasksValid(tasks - gone, ids)
  {
  }

  /** What `CollectViews` has gathered after visiting the message ids in `done`: one
      entry per visited message the user is involved in. */
  predicate Collected(collected: seq<MessageView>, done: set<MessageId>,
                      messages: map<MessageId, Message>, u: UserId, rows: seq<User>)
    requires done <= messages.Keys
  {
    && |collected| == |Involved(messages, done, u)|
    && (forall i :: 0 <= i < |collected| ==> collected[i].id in done)
    && (forall i :: 0 <= i < |collected| ==> IsViewFor(collected[i], messages, u, rows))
    && (forall d :: d in done && Involves(messages[d], u) ==>
          exists i :: 0 <= i < |collected| && collected[i].id == d)
  }

  /** One iteration of the loop of `CollectViews` keeps `Collected`. */
  lemma CollectStep(collected: seq<MessageView>, done: set<MessageId>,
                    messages: map<MessageId, Message>, u: UserId, rows: seq<User>, id: MessageId)
    requires done <= messages.Keys && id in messages && id !in done && messages[id].id == id
    requires Collected(collected, done, messages, u, rows)
    ensures Collected(if Involves(messages[id], u) then collected + [View(messages[id], u, rows)] else collected,
                      done + {id}, messages, u, rows)
  {
    InvolvedStep(messages, done, id, u);
    if Involves(messages[id], u) {
      CollectAppend(collected, done, messages, u, rows, id);
    } else {
      CollectSkip(collected, done, messages, u, rows, id);
    }
  }

  /** Visiting a message the user is involved in and appending its entry keeps `Collected`. */
  lemma CollectAppend(collected: seq<MessageView>, done: set<MessageId>,
                      messages: map<MessageId, Message>, u: UserId, rows: seq<User>, id: MessageId)
    requires done <= messages.Keys && id in messages && id !in done && messages[id].id == id
    requires Involves(messages[id], u)
    requires |Involved(messages, done + {id}, u)| == |Involved(messages, done, u)| + 1
    requires Collected(collected, done, messages, u, rows)
    ensures Collected(collected + [View(messages[id], u, rows)], done + {id}, messages, u, rows)
  {
    var v := View(messages[id], u, rows);
    assert IsViewFor(v, messages, u, rows) && v.id == id;
    AppendedEntries(collected, v, done, messages, u, rows);
    AppendedCovers(collected, v, done, messages, u);
  }

  /** Visiting a message the user is not involved in keeps `Collected` unchanged. */
  lemma CollectSkip(collected: seq<MessageView>, done: set<MessageId>,
                    messages: map<MessageId, Message>, u: UserId, rows: seq<User>, id: MessageId)
    requires done <= messages.Keys && id in messages && id !in done
    requires !Involves(messages[id], u)
    requires Involved(messages, done + {id}, u) == Involved(messages, done, u)
    requires Collected(collected, done, messages, u, rows)
    ensures Collected(collected, done + {id}, messages, u, rows)
  {
  }

  lemma AppendedEntries(collected: seq<MessageView>, v: MessageView, done: set<MessageId>,
                        messages: map<MessageId, Message>, u: UserId, rows: seq<User>)
    requires forall i :: 0 <= i < |collected| ==> collected[i].id in done
    requires forall i :: 0 <= i < |collected| ==> IsViewFor(collected[i], messages, u, rows)
    requires IsViewFor(v, messages, u, rows)
    ensures forall i :: 0 <= i < |collected + [v]| ==> (collected + [v])[i].id in done + {v.id}
    ensures forall i :: 0 <= i < |collected + [v]| ==> IsViewFor((collected + [v])[i], messages, u, rows)
  {
    var r := collected + [v];
    forall i | 0 <= i < |r| ensures r[i].id in done + {v.id} && IsViewFor(r[i], messages, u, rows) {
      if i < |collected| {
        assert r[i] == collected[i];
      }
    }
  }

  lemma AppendedCovers(collected: seq<MessageView>, v: MessageView, done: set<MessageId>,
                       messages: map<MessageId, Message>, u: UserId)
    requires done <= messages.Keys
    requires forall d :: d in done && Involves(messages[d], u) ==>
               exists i :: 0 <= i < |collected| && collected[i].id == d
    ensures forall d :: d in done + {v.id} && d in messages && Involves(messages[d], u) ==>
              exists i :: 0 <= i < |collected + [v]| && (collected + [v])[i].id == d
  {
    var r := collected + [v];
    assert r[|collected|].id == v.id;
    forall d | d in done + {v.id} && d in messages && Involves(messages[d], u)
      ensures exists i :: 0 <= i < |r| && r[i].id == d
    {
      if d != v.id {
        var i :| 0 <= i < |collected| && collected[i].id == d;
        assert r[i] == collected[i];
      }
    }
  }

  /** The loop of `get_user_messages` over `messages.values()`, in no particular order. */
  method CollectViews(messages: map<MessageId, Message>, rows: seq<User>, u: UserId)
    returns (collected: seq<MessageView>)
    requires forall k :: k in messages ==> messages[k].id == k
    ensures Collected(collected, messages.Keys, messages, u, rows)
  {
    collected := [];
    var pending := messages.Keys;
    ghost var done: set<MessageId> := {};
    while pending != {}
      invariant done + pending == messages.Keys && done !! pending
      invariant Collected(collected, done, messages, u, rows)
      decreases pending
    {
      var id :| id in pending;
      var msg := messages[id];
      CollectStep(collected, done, messages, u, rows, id);
      if Involves(msg, u) {
        collected := collected + [View(msg, u, rows)];
      }
      done := done + {id};
      pending := pending - {id};
    }
    assert done == messages.Keys;
  }

  /** The body of `get_user_messages` over the message store and the user table. */
  method UserMessages(messages: map<MessageId, Message>, rows: seq<User>, u: UserId)
    returns (r: seq<MessageView>)
    requires MessagesValid(messages, UserIds(rows))
    ensures |r| == |Involved(messages, messages.Keys, u)|
    ensures forall i :: 0 <= i < |r| ==> IsViewFor(r[i], messages, u, rows)
    ensures forall id :: id in messages && Involves(messages[id], u) ==>
              exists i :: 0 <= i < |r| && r[i].id == id
    ensures forall i :: 0 <= i < |r| ==> r[i].id in messages && (r[i].isSentByMe <==> messages[r[i].id].senderId == u)
    ensures forall i :: 0 <= i < |r| ==>
              r[i].senderUsername in Usernames(rows) && r[i].recipientUsername in Usernames(rows)
    ensures Unique(rows, Id) ==>
              forall i, j :: 0 <= i < |r| && 0 <= j < |rows| ==>
                && (rows[j].id == messages[r[i].id].senderId ==> r[i].senderUsername == rows[j].username)
                && (rows[j].id == messages[r[i].id].recipientId ==> r[i].recipientUsername == rows[j].username)
    ensures SortedByTimeDesc(r)
  {
    var collected := CollectViews(messages, rows, u);
    r := SortByTimeDesc(collected);
    CollectedPermuted(collected, r, messages, u, rows);
    forall i | 0 <= i < |r|
      ensures (r[i].isSentByMe <==> messages[r[i].id].senderId == u)
      ensures r[i].senderUsername in Usernames(rows) && r[i].recipientUsername in Usernames(rows)
      ensures Unique(rows, Id) ==>
                forall j :: 0 <= j < |rows| ==>
                  && (rows[j].id == messages[r[i].id].senderId ==> r[i].senderUsername == rows[j].username)
                  && (rows[j].id == messages[r[i].id].recipientId ==> r[i].recipientUsername == rows[j].username)
    {
      ViewNames(r[i], messages, u, rows);
    }
  }

  class App {
    const db: UserTable
    var groups: map<GroupId, Group>
    var groupMembers: map<GroupId, seq<UserId>>
    var tasks: map<TaskId, Task>
    var messages: map<MessageId, Message>

    ghost predicate Valid()
      reads this, db
    {
      && db.Valid()
      && GroupsValid(groups, groupMembers, UserIds(db.rows))
      && TasksValid(tasks, UserIds(db.rows))
      && MessagesValid(messages, UserIds(db.rows))
    }

    constructor (db: UserTable)
      requires db.Valid()
      ensures Valid() && this.db == db
      ensures groups == map[] && groupMembers == map[] && tasks == map[] && messages == map[]
    {
      this.db := db;
      groups, groupMembers, tasks, messages := map[], map[], map[], map[];
    }

    // -------------------------------------------------------------------------
    // register and login

    /** `register`: every field must be non-empty, the email must be new; the rest is
        RegisterUser. */
    method Register(fullName: string, email: string, password: string, newId: UserId,
                    fold: string -> string, hash: string -> string, draws: seq<Suffix>)
      returns (o: Outcome)
      requires Valid()
      requires Find(db.rows, Id, newId).None?
      requires |draws| >= MaxAttempts
      modifies db
      ensures Valid()
      ensures fullName == [] || email == [] || password == [] ==>
                o == MissingData && db.rows == old(db.rows)
      ensures fullName != [] && email != [] && password != [] && Find(old(db.rows), Email, email).Some? ==>
                o == EmailTaken && db.rows == old(db.rows)
      ensures fullName != [] && email != [] && password != [] && Find(old(db.rows), Email, email).None? ==>
                var base, taken := BaseOf(fold(fullName)), Usernames(old(db.rows));
                && (o == GenerationFailed <==> AllTaken(base, taken, draws))
                && (o == GenerationFailed ==> db.rows == old(db.rows))
                && (o != GenerationFailed ==>
                      && o.Registered?
                      && db.rows == old(db.rows) + [User(newId, fullName, email, o.username, hash(password))]
                      && exists j :: FirstFreeAt(base, taken, draws, j) && o.username == Handle(base, draws[j]))
    {
      if fullName == [] || email == [] || password == [] {
        return MissingData;
      }
      if Find(db.rows, Email, email).Some? {
        return EmailTaken;
      }
      var r := RegisterUser(db, fullName, email, password, newId, fold, hash, draws);
      match r
      case Success(user) =>
        o := Registered(user.username);
        UserIdsAppend(old(db.rows), user);
        GroupsValidMonotone(groups, groupMembers, UserIds(old(db.rows)), UserIds(db.rows));
      case Failure(UsernameExhausted) =>
        o := GenerationFailed;
      case Failure(DuplicateEmail) =>
        o := ServerError;
    }

    /** `login`: both fields must be non-empty; then Users.Login decides. */
    method Login(key: string, password: string, verify: (string, string) -> bool)
      returns (o: Outcome)
      requires Valid()
      ensures o.MissingData? || o.LoggedIn? || o.InvalidCredentials?
      ensures o.MissingData? <==> key == [] || password == []
      ensures o.LoggedIn? ==>
                exists i :: 0 <= i < |db.rows| && o == LoggedIn(db.rows[i].id, db.rows[i].username, db.rows[i].fullName)
                  && verify(db.rows[i].passwordHash, password)
                  && (db.rows[i].username == key || (db.rows[i].email == key && Find(db.rows, Username, key).None?))
      ensures o.InvalidCredentials? ==>
                forall i :: 0 <= i < |db.rows| ==>
                  (db.rows[i].username == key ==> !verify(db.rows[i].passwordHash, password)) &&
                  (db.rows[i].email == key && Find(db.rows, Username, key).None? ==> !verify(db.rows[i].passwordHash, password))
    {
      if key == [] || password == [] {
        return MissingData;
      }
      var user := Users.Login(db.rows, key, password, verify);
      if user.Some? {
        var u := user.value;
        var i :| 0 <= i < |db.rows| && db.rows[i] == u;
        o := LoggedIn(u.id, u.username, u.fullName);
      } else {
        o := InvalidCredentials;
      }
    }

    // -------------------------------------------------------------------------
    // groups

    /** `create_group`: the creator must be a user; the group starts with the creator
        as its only member, in both stores. `description` is `None` when the request
        has no such key and `Some(None)` when it is JSON null. */
    method CreateGroup(newId: GroupId, creatorId: UserId, name: Option<string>,
                       description: Option<Option<string>>)
      returns (o: Outcome)
      requires Valid()
      requires newId !in groups
      modifies this
      ensures Valid()
      ensures tasks == old(tasks) && messages == old(messages)
      ensures Find(db.rows, Id, creatorId).None? ==>
                o == InvalidCreator && groups == old(groups) && groupMembers == old(groupMembers)
      ensures Find(db.rows, Id, creatorId).Some? ==>
                var creator := Find(db.rows, Id, creatorId).value;
                && o == GroupCreated(newId)
                && groups == old(groups)[newId := Group(newId, name, description.GetOr(Some(DefaultDescription)),
                                                        creator.id, creator.username, [creator.id])]
                && groupMembers == old(groupMembers)[newId := [creator.id]]
    {
      var found := Find(db.rows, Id, creatorId);
      if found.None? {
        return InvalidCreator;
      }
      var creator := found.value;
      UserIdsFind(db.rows, creator.id);
      var gr := Group(newId, name, description.GetOr(Some(DefaultDescription)),
                      creator.id, creator.username, [creator.id]);
      assert GroupInvariant(newId, gr, gr.members, UserIds(db.rows));
      GroupsValidInsert(groups, groupMembers, newId, gr, UserIds(db.rows));
      groups := groups[newId := gr];
      groupMembers := groupMembers[newId := gr.members];
      o := GroupCreated(newId);
    }

    /** `delete_group`: removes the group, its member list and every task of the group. */
    method DeleteGroup(g: GroupId) returns (o: Outcome)
      requires Valid()
      modifies this
      ensures Valid()
      ensures messages == old(messages)
      ensures g !in old(groups) ==>
                o == GroupNotFound && groups == old(groups) && groupMembers == old(groupMembers) && tasks == old(tasks)
      ensures g in old(groups) ==>
                && o == GroupDeleted
                && groups == old(groups) - {g}
                && groupMembers == old(groupMembers) - {g}
                && tasks == WithoutGroupTasks(old(tasks), g)
    {
      if g !in groups {
        return GroupNotFound;
      }
      GroupsValidRemove(groups, groupMembers, g, UserIds(db.rows));
      groups := groups - {g};
      if g in groupMembers {
        groupMembers := groupMembers - {g};
      }
      TasksValidRemove(tasks, GroupTaskIds(tasks, g), UserIds(db.rows));
      DeleteTasks(GroupTaskIds(tasks, g));
      o := GroupDeleted;
    }

    /** The loop `for task_id in tasks_to_delete: del tasks[task_id]`. */
    method DeleteTasks(victims: set<TaskId>)
      modifies this
      ensures tasks == old(tasks) - victims
      ensures groups == old(groups) && groupMembers == old(groupMembers) && messages == old(messages)
    {
      var pending := victims;
      while pending != {}
        invariant pending <= victims
        invariant tasks == old(tasks) - (victims - pending)
        invariant groups == old(groups) && groupMembers == old(groupMembers) && messages == old(messages)
        decreases pending
      {
        var id :| id in pending;
        assert victims - (pending - {id}) == (victims - pending) + {id};
        tasks := tasks - {id};
        pending := pending - {id};
      }
    }

    /** `join_group`: unknown group or username changes nothing; a member joins at most
        once, appended to both member lists. */
    method JoinGroup(g: GroupId, username: string) returns (o: Outcome)
      requires Valid()
      modifies this
      ensures Valid()
      ensures tasks == old(tasks) && messages == old(messages)
      ensures g !in old(groups) ==>
                o == GroupNotFound && groups == old(groups) && groupMembers == old(groupMembers)
      ensures g in old(groups) && Find(db.rows, Username, username).None? ==>
                o == UserNotFound && groups == old(groups) && groupMembers == old(groupMembers)
      ensures g in old(groups) && Find(db.rows, Username, username).Some? ==>
                var id, members := Find(db.rows, Username, username).value.id, old(groups)[g].members;
                && (id in members ==>
                      o == AlreadyMember && groups == old(groups) && groupMembers == old(groupMembers))
                && (id !in members ==>
                      && o == Joined
                      && groups == old(groups)[g := old(groups)[g].(members := members + [id])]
                      && groupMembers == old(groupMembers)[g := old(groupMembers)[g] + [id]])
    {
      var user := Find(db.rows, Username, username);
      if g !in groups {
        return GroupNotFound;
      }
      if user.None? {
        return UserNotFound;
      }
      var id := user.value.id;
      if id in groups[g].members {
        return AlreadyMember;
      }
      UserIdsFind(db.rows, id);
      var gr := groups[g];
      var joined := gr.(members := gr.members + [id]);
      assert groupMembers[g] + [id] == joined.members;
      JoinKeepsGroupInvariant(g, gr, id, UserIds(db.rows));
      GroupsValidInsert(groups, groupMembers, g, joined, UserIds(db.rows));
      groups := groups[g := joined];
      groupMembers := groupMembers[g := joined.members];
      o := Joined;
    }

    // -------------------------------------------------------------------------
    // tasks

    /** `add_task`: the creator must be a user; the group id is stored unchecked. */
    method AddTask(newId: TaskId, creatorId: UserId, groupId: Option<GroupId>, fields: TaskFields)
      returns (o: Outcome)
      requires Valid()
      requires newId !in tasks
      modifies this
      ensures Valid()
      ensures groups == old(groups) && groupMembers == old(groupMembers) && messages == old(messages)
      ensures Find(db.rows, Id, creatorId).None? ==> o == InvalidCreator && tasks == old(tasks)
      ensures Find(db.rows, Id, creatorId).Some? ==>
                o == TaskAdded(newId) && tasks == old(tasks)[newId := Task(newId, groupId, fields, creatorId)]
    {
      var creator := Find(db.rows, Id, creatorId);
      if creator.None? {
        return InvalidCreator;
      }
      UserIdsFind(db.rows, creatorId);
      tasks := tasks[newId := Task(newId, groupId, fields, creator.value.id)];
      o := TaskAdded(newId);
    }

    /** `delete_task`: removes that one task, with no check of who asks. */
    method DeleteTask(id: TaskId) returns (o: Outcome)
      requires Valid()
      modifies this
      ensures Valid()
      ensures groups == old(groups) && groupMembers == old(groupMembers) && messages == old(messages)
      ensures id in old(tasks) ==> o == TaskDeleted && tasks == old(tasks) - {id}
      ensures id !in old(tasks) ==> o == TaskNotFound && tasks == old(tasks)
    {
      if id in tasks {
        tasks := tasks - {id};
        return TaskDeleted;
      }
      return TaskNotFound;
    }

    // -------------------------------------------------------------------------
    // messages

    /** `send_message`: the recipient is looked up by username, then the sender by id;
        a new unread message is stored under the fresh id. */
    method SendMessage(newId: MessageId, senderId: UserId, recipientUsername: string,
                       content: Option<string>, now: int)
      returns (o: Outcome)
      requires Valid()
      requires newId !in messages
      modifies this
      ensures Valid()
      ensures unchanged(this`groups, this`groupMembers, this`tasks)
      ensures var recipient, sender := Find(db.rows, Username, recipientUsername), Find(db.rows, Id, senderId);
                if recipient.None? then o == RecipientNotFound && messages == old(messages)
                else if sender.None? then o == SenderNotFound && messages == old(messages)
                else o == MessageSent &&
                     messages == old(messages)[newId := Message(newId, senderId, recipient.value.id, content, now, false)]
    {
      var recipient := Find(db.rows, Username, recipientUsername);
      if recipient.None? {
        o := RecipientNotFound;
      } else {
        var sender := Find(db.rows, Id, senderId);
        if sender.None? {
          o := SenderNotFound;
        } else {
          UserIdsFind(db.rows, senderId);
          UserIdsFind(db.rows, recipient.value.id);
          var m := Message(newId, senderId, recipient.value.id, content, now, false);
          MessagesValidInsert(messages, m, UserIds(db.rows));
          messages := messages[newId := m];
          o := MessageSent;
        }
      }
    }

    /** `get_user_messages`: every message the user sent or received, once, as seen by
        that user, newest first. */
    method GetUserMessages(u: UserId) returns (r: seq<MessageView>)
      requires Valid()
      ensures |r| == |Involved(messages, messages.Keys, u)|
      ensures forall i :: 0 <= i < |r| ==> IsViewFor(r[i], messages, u, db.rows)
      ensures forall id :: id in messages && Involves(messages[id], u) ==>
                exists i :: 0 <= i < |r| && r[i].id == id
      ensures forall i :: 0 <= i < |r| ==> r[i].id in messages && (r[i].isSentByMe <==> messages[r[i].id].senderId == u)
      ensures forall i :: 0 <= i < |r| ==>
                r[i].senderUsername in Usernames(db.rows) && r[i].recipientUsername in Usernames(db.rows)
      ensures forall i, j :: 0 <= i < |r| && 0 <= j < |db.rows| ==>
                && (db.rows[j].id == messages[r[i].id].senderId ==> r[i].senderUsername == db.rows[j].username)
                && (db.rows[j].id == messages[r[i].id].recipientId ==> r[i].recipientUsername == db.rows[j].username)
      ensures SortedByTimeDesc(r)
    {
      r := UserMessages(messages, db.rows, u);
    }

    /** `delete_message`: removes that one message, for both parties. */
    method DeleteMessage(id: MessageId) returns (o: Outcome)
      requires Valid()
      modifies this
      ensures Valid()
      ensures groups == old(groups) && groupMembers == old(groupMembers) && tasks == old(tasks)
      ensures id in old(messages) ==> o == MessageDeleted && messages == old(messages) - {id}
      ensures id !in old(messages) ==> o == MessageNotFound && messages == old(messages)
    {
      if id in messages {
        messages := messages - {id};
        return MessageDeleted;
      }
      return MessageNotFound;
    }
  }
}
