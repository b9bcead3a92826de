/**
  The two history reads of server.js over the message logs: a room's messages
  (`GET /api/messages/room/:room`) and the conversation between two users
  (`GET /api/messages/private/:otherUser?username=...`), each in ascending
  `date_sent` order. The database query becomes a filter over the in-memory
  log followed by a sort.
 */
module History {
  import opened Wrappers
  import Sorting
  import GroupMessages
  import PrivateMessages

  /** The HTTP status of a rejected request. */
  const BadRequest: nat := 400

  /** The `{ date_sent: 1 }` order on group messages. */
  function GroupByDate(): (leq: (GroupMessages.Record, GroupMessages.Record) -> bool)
    ensures Sorting.TotalPreorder(leq)
  {
    (a: GroupMessages.Record, b: GroupMessages.Record) => a.date_sent <= b.date_sent
  }

  /** The `{ date_sent: 1 }` order on private messages. */
  function PrivateByDate(): (leq: (PrivateMessages.Record, PrivateMessages.Record) -> bool)
    ensures Sorting.TotalPreorder(leq)
  {
    (a: PrivateMessages.Record, b: PrivateMessages.Record) => a.date_sent <= b.date_sent
  }

  /** `GroupMessage.find({ room }).sort({ date_sent: 1 })`. */
  function RoomHistory(log: seq<GroupMessages.Record>, room: string): (r: seq<GroupMessages.Record>)
    ensures forall i :: 0 <= i < |r| ==> r[i].room == room
    ensures forall m :: multiset(r)[m] == if m.room == room then multiset(log)[m] else 0
    ensures forall i, j :: 0 <= i < j < |r| ==> r[i].date_sent <= r[j].date_sent
  {
    var leq := GroupByDate();
    var r := Sorting.SortBy(Sorting.Filter(log, (m: GroupMessages.Record) => m.room == room), leq);
    assert forall i :: 0 <= i < |r| ==> r[i] in multiset(r);
    r
  }

  /** The messages between `a` and `b`, in either direction. */
  predicate Between(m: PrivateMessages.Record, a: string, b: string)
  {
    (m.from_user == a && m.to_user == b) || (m.from_user == b && m.to_user == a)
  }

  /** `PrivateMessage.find({ $or: [a to b, b to a] }).sort({ date_sent: 1 })`. */
  function Conversation(log: seq<PrivateMessages.Record>, a: string, b: string): (r: seq<PrivateMessages.Record>)
    ensures forall i :: 0 <= i < |r| ==> Between(r[i], a, b)
    ensures forall m :: multiset(r)[m] == if Between(m, a, b) then multiset(log)[m] else 0
    ensures forall i, j :: 0 <= i < j < |r| ==> r[i].date_sent <= r[j].date_sent
  {
    var leq := PrivateByDate();
    var r := Sorting.SortBy(Sorting.Filter(log, (m: PrivateMessages.Record) => Between(m, a, b)), leq);
    assert forall i :: 0 <= i < |r| ==> r[i] in multiset(r);
    r
  }

  /**
    The private history handler: 400 unless both names are non-empty, else
    the conversation between the two users.
   */
  function PrivateHistory(log: seq<PrivateMessages.Record>, username: string, otherUser: string)
    : (r: Result<seq<PrivateMessages.Record>, nat>)
    ensures r.Failure? <==> username == "" || otherUser == ""
    ensures r.Failure? ==> r.error == BadRequest
    ensures r.Success? ==> r.value == Conversation(log, username, otherUser)
  {
    if username == "" || otherUser == "" then Failure(BadRequest)
    else Success(Conversation(log, username, otherUser))
  }

  /** The conversation is the same whichever of the two users asks. */
  lemma ConversationSymmetric(log: seq<PrivateMessages.Record>, a: string, b: string)
    ensures Conversation(log, a, b) == Conversation(log, b, a)
  {
    FilterSame(log, (m: PrivateMessages.Record) => Between(m, a, b), (m: PrivateMessages.Record) => Between(m, b, a));
  }

  lemma {:induction false} FilterSame<T(!new)>(s: seq<T>, p: T -> bool, q: T -> bool)
    requires forall x :: p(x) == q(x)
    ensures Sorting.Filter(s, p) == Sorting.Filter(s, q)
  {
    if s != [] {
      FilterSame(s[1..], p, q);
    }
  }

  /** A message stored to a room shows up in that room's history and in no other. */
  lemma StoredRoomMessageInHistory(log: seq<GroupMessages.Record>, m: GroupMessages.Record, room: string)
    ensures m in RoomHistory(log + [m], room) <==> m.room == room
  {
    var r := RoomHistory(log + [m], room);
    assert m in r <==> m in multiset(r);
    assert multiset(log + [m])[m] >= 1;
  }

  /** A stored private message shows up in the history of its two users, asked by either. */
  lemma StoredPrivateMessageInHistory(log: seq<PrivateMessages.Record>, m: PrivateMessages.Record)
    requires m.from_user != "" && m.to_user != ""
    ensures m in PrivateHistory(log + [m], m.from_user, m.to_user).value
    ensures m in PrivateHistory(log + [m], m.to_user, m.from_user).value
  {
    var r := PrivateHistory(log + [m], m.from_user, m.to_user).value;
    assert m in r <==> m in multiset(r);
    assert multiset(log + [m])[m] >= 1;
    ConversationSymmetric(log + [m], m.from_user, m.to_user);
  }
}
