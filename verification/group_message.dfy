/**
  models/GroupMessage.js: a message posted to a room. Three required, trimmed
  String paths (`from_user`, `room`, `message`, the last at most 2000 long) and
  a creation timestamp `date_sent`; the schema keeps no update timestamp, so a
  stored record is never rewritten.
 */
module GroupMessages {
  import opened Wrappers
  import Text
  import Schema

  const MessageMaxLength: nat := 2000

  /** The fields handed to `GroupMessage.create`. */
  datatype Fields = Fields(from_user: string, room: string, message: string)

  /** A stored group message: the database id, the trimmed fields and the creation time. */
  datatype Record = Record(id: nat, from_user: string, room: string, message: string, date_sent: nat)

  /** The `trim: true` setters, applied to every path on assignment. */
  function Normalise(f: Fields): (n: Fields)
    ensures |n.from_user| <= |f.from_user| && |n.room| <= |f.room| && |n.message| <= |f.message|
  {
    Fields(Text.Trim(f.from_user), Text.Trim(f.room), Text.Trim(f.message))
  }

  /** The validators of the three paths, run on the normalised fields. */
  function Violations(f: Fields): (v: set<Schema.Violation>)
    ensures v == {} <==> Valid(Normalise(f))
  {
    var n := Normalise(f);
    Schema.CheckPath("from_user", n.from_user, None)
    + Schema.CheckPath("room", n.room, None)
    + Schema.CheckPath("message", n.message, Some(MessageMaxLength))
  }

  /** What every path of a saved document satisfies. */
  predicate Valid(f: Fields)
  {
    f.from_user != "" && f.room != "" && f.message != "" && Text.Length(f.message) <= MessageMaxLength
  }

  /** What every stored record satisfies: its fields are trimmed and pass the validators. */
  predicate Stored(r: Record)
  {
    && Text.IsTrimmed(r.from_user) && Text.IsTrimmed(r.room) && Text.IsTrimmed(r.message)
    && Valid(Fields(r.from_user, r.room, r.message))
  }

  /**
    `GroupMessage.create`: normalise, validate, and on success assign the id
    and the creation time. It fails with the violations exactly when a
    trimmed path is empty or the trimmed message is over the limit.
   */
  function Create(f: Fields, id: nat, now: nat): (r: Result<Record, set<Schema.Violation>>)
    ensures r.Success? <==> Valid(Normalise(f))
    ensures r.Success? ==> Stored(r.value) && r.value.id == id && r.value.date_sent == now
    ensures r.Success? ==> Fields(r.value.from_user, r.value.room, r.value.message) == Normalise(f)
    ensures r.Failure? ==> r.error != {} && r.error == Violations(f)
  {
    var v := Violations(f);
    if v != {} then Failure(v)
    else
      var n := Normalise(f);
      Success(Record(id, n.from_user, n.room, n.message, now))
  }

  /** A message of nothing but whitespace is trimmed to "" and fails `required`. */
  lemma BlankMessageRejected(f: Fields, id: nat, now: nat)
    requires forall k :: 0 <= k < |f.message| ==> Text.IsTrimmable(f.message[k])
    ensures Create(f, id, now).Failure?
    ensures Schema.Required("message") in Create(f, id, now).error
  {
    Text.TrimEmptyIff(f.message);
  }

  /** A trimmed message longer than 2000 code units fails `maxlength`. */
  lemma LongMessageRejected(f: Fields, id: nat, now: nat)
    requires Text.Length(Text.Trim(f.message)) > MessageMaxLength
    ensures Create(f, id, now).Failure?
    ensures Schema.MaxLength("message", MessageMaxLength) in Create(f, id, now).error
  {
  }

  /** Saving the fields of a stored record again yields the same record: normalisation is idempotent. */
  lemma ResaveIsIdentity(r: Record)
    requires Stored(r)
    ensures Create(Fields(r.from_user, r.room, r.message), r.id, r.date_sent) == Success(r)
  {
    Text.TrimOfTrimmed(r.from_user);
    Text.TrimOfTrimmed(r.room);
    Text.TrimOfTrimmed(r.message);
  }

  /**
    The collection invariant: every saved record passed the schema and has an
    id below `bound`. `AllStoredMeans` states it record by record.
   */
  ghost predicate AllStored(log: seq<Record>, bound: nat)
  {
    StoredBelow(log, |log|, bound)
  }

  /** The first `n` records of `log` are stored with ids below `bound`. */
  ghost predicate StoredBelow(log: seq<Record>, n: nat, bound: nat)
    requires n <= |log|
    decreases n
  {
    n > 0 ==> StoredBelow(log, n - 1, bound) && Stored(log[n - 1]) && log[n - 1].id < bound
  }

  lemma {:induction false} StoredBelowMeans(log: seq<Record>, n: nat, bound: nat)
    requires n <= |log|
    ensures StoredBelow(log, n, bound) <==> forall i :: 0 <= i < n ==> Stored(log[i]) && log[i].id < bound
    decreases n
  {
    if n > 0 {
      StoredBelowMeans(log, n - 1, bound);
    }
  }

  lemma AllStoredMeans(log: seq<Record>, bound: nat)
    ensures AllStored(log, bound) <==> forall m :: m in log ==> Stored(m) && m.id < bound
  {
    StoredBelowMeans(log, |log|, bound);
  }

  /** Saving a record with the next id keeps the invariant, with the bound moved past it. */
  lemma AllStoredAppend(log: seq<Record>, r: Record, bound: nat)
    requires AllStored(log, bound)
    requires Stored(r) && r.id == bound
    ensures AllStored(log + [r], bound + 1)
  {
    AllStoredMeans(log, bound);
    AllStoredMeans(log + [r], bound + 1);
  }

  /** Raising the id bound keeps the invariant. */
  lemma AllStoredRaise(log: seq<Record>, bound: nat, bound': nat)
    requires AllStored(log, bound) && bound <= bound'
    ensures AllStored(log, bound')
  {
    StoredBelowMeans(log, |log|, bound);
    StoredBelowMeans(log, |log|, bound');
  }
}
