/**
  The presence registry `activeUsers` of server.js: a JavaScript Map from
  username to socket id. A Map remembers the order in which keys were first
  inserted; `set` on an existing key replaces its value in place, `delete`
  drops the entry, and iteration follows that order. The order matters: the
  disconnect handler removes the FIRST entry whose value is the departing
  socket, and one socket may hold several usernames. The registry is therefore
  modelled as a sequence of entries in insertion order.
 */
module Presence {
  import opened Wrappers
  import Text

  type SocketId = nat

  datatype Entry = Entry(username: string, socket: SocketId)

  /**
    At most one entry per username: the Map invariant. Stated entry by entry
    (no entry repeats the name of an earlier one); UniqueNamesMeans gives the
    pairwise form.
   */
  ghost predicate UniqueNames(es: seq<Entry>)
  {
    UniqueBelow(es, |es|)
  }

  /** The first `n` entries hold pairwise different names. */
  ghost predicate UniqueBelow(es: seq<Entry>, n: nat)
    requires n <= |es|
    decreases n
  {
    n > 0 ==>
      && UniqueBelow(es, n - 1)
      && forall k :: 0 <= k < n - 1 ==> es[k].username != es[n - 1].username
  }

  lemma {:induction false} UniqueBelowMeans(es: seq<Entry>, n: nat)
    requires n <= |es|
    ensures UniqueBelow(es, n) <==> forall i, j :: 0 <= i < j < n ==> es[i].username != es[j].username
    decreases n
  {
    if n > 0 {
      UniqueBelowMeans(es, n - 1);
    }
  }

  /** UniqueNames is pairwise distinctness of the usernames. */
  lemma UniqueNamesMeans(es: seq<Entry>)
    ensures UniqueNames(es) <==> forall i, j :: 0 <= i < j < |es| ==> es[i].username != es[j].username
  {
    UniqueBelowMeans(es, |es|);
  }

  /**
    What the server keeps true of its registry: unique names, none of them
    empty, and only sockets below `bound` (the sockets handed out so far).
   */
  ghost predicate WellFormed(es: seq<Entry>, bound: nat)
  {
    && UniqueNames(es)
    && forall i :: 0 <= i < |es| ==> es[i].username != "" && es[i].socket < bound
  }

  /** `activeUsers.keys()`: the usernames in insertion order. */
  function Names(es: seq<Entry>): (ns: seq<string>)
    ensures |ns| == |es|
    ensures forall i :: 0 <= i < |es| ==> ns[i] == es[i].username
  {
    seq(|es|, i requires 0 <= i < |es| => es[i].username)
  }

  /** The index of the first entry holding username `u`, if any. */
  function IndexOf(es: seq<Entry>, u: string): (r: Option<nat>)
    ensures r.None? <==> forall i :: 0 <= i < |es| ==> es[i].username != u
    ensures r.Some? ==> r.value < |es| && es[r.value].username == u
    ensures r.Some? ==> forall i :: 0 <= i < r.value ==> es[i].username != u
  {
    IndexFrom(es, u, 0)
  }

  /** The index of the first entry from index `i` on holding username `u`, if any. */
  function IndexFrom(es: seq<Entry>, u: string, i: nat): (r: Option<nat>)
    requires i <= |es|
    ensures r.None? <==> forall k :: i <= k < |es| ==> es[k].username != u
    ensures r.Some? ==> i <= r.value < |es| && es[r.value].username == u
    ensures r.Some? ==> forall k :: i <= k < r.value ==> es[k].username != u
    decreases |es| - i
  {
    if i == |es| then None
    else if es[i].username == u then Some(i)
    else IndexFrom(es, u, i + 1)
  }

  /** `activeUsers.get(u)`: the socket registered under `u`, if any. */
  function Get(es: seq<Entry>, u: string): (r: Option<SocketId>)
    ensures r.None? <==> forall i :: 0 <= i < |es| ==> es[i].username != u
    ensures r.Some? ==> exists i :: 0 <= i < |es| && es[i] == Entry(u, r.value)
  {
    match IndexOf(es, u)
    case None => None
    case Some(i) => Some(es[i].socket)
  }

  /** With unique names, `get` returns the socket of the one entry holding the name. */
  lemma GetAt(es: seq<Entry>, i: nat)
    requires UniqueNames(es)
    requires i < |es|
    ensures Get(es, es[i].username) == Some(es[i].socket)
  {
    UniqueNamesMeans(es);
  }

  /** IndexOf finds the first entry holding the name. */
  lemma IndexOfIs(es: seq<Entry>, v: string, i: nat)
    requires i < |es| && es[i].username == v
    requires forall k :: 0 <= k < i ==> es[k].username != v
    ensures IndexOf(es, v) == Some(i)
  {
  }

  /** Two registries with the same names in the same order locate every name at the same index. */
  lemma IndexOfSameNames(a: seq<Entry>, b: seq<Entry>, v: string)
    requires Names(a) == Names(b)
    ensures IndexOf(a, v) == IndexOf(b, v)
  {
    assert |a| == |b|;
    assert forall i :: 0 <= i < |a| ==> a[i].username == Names(a)[i] == b[i].username;
    if IndexOf(a, v).Some? {
      IndexOfIs(b, v, IndexOf(a, v).value);
    }
  }

  /** Appending an entry for a new name locates every old name where it was. */
  lemma IndexOfAppend(es: seq<Entry>, e: Entry, v: string)
    requires IndexOf(es, e.username).None?
    ensures IndexOf(es + [e], v) == if v == e.username then Some(|es|) else IndexOf(es, v)
  {
    var r := es + [e];
    assert forall i :: 0 <= i < |es| ==> r[i] == es[i];
    if v == e.username {
      IndexOfIs(r, v, |es|);
    } else if IndexOf(es, v).Some? {
      IndexOfIs(r, v, IndexOf(es, v).value);
    }
  }

  /** `set` on a name already present: the entry keeps its index and takes the new socket. */
  lemma SetInPlace(es: seq<Entry>, j: nat, u: string, s: SocketId)
    requires IndexOf(es, u) == Some(j)
    ensures var r := es[j := Entry(u, s)];
      && Get(r, u) == Some(s)
      && (forall v :: v != u ==> Get(r, v) == Get(es, v))
      && (UniqueNames(es) ==> UniqueNames(r))
      && Names(r) == Names(es)
      && (forall k :: 0 <= k < |r| ==> r[k] == Entry(u, s) || (k < |es| && r[k] == es[k]))
  {
    var r := es[j := Entry(u, s)];
    assert Names(r) == Names(es);
    UniqueNamesMeans(es);
    UniqueNamesMeans(r);
    forall v ensures IndexOf(r, v) == IndexOf(es, v) {
      IndexOfSameNames(r, es, v);
    }
  }

  /** `set` on a new name: a new entry at the end. */
  lemma SetAppend(es: seq<Entry>, u: string, s: SocketId)
    requires IndexOf(es, u).None?
    ensures var r := es + [Entry(u, s)];
      && Get(r, u) == Some(s)
      && (forall v :: v != u ==> Get(r, v) == Get(es, v))
      && (UniqueNames(es) ==> UniqueNames(r))
      && Names(r) == Names(es) + [u]
      && (forall k :: 0 <= k < |r| ==> r[k] == Entry(u, s) || (k < |es| && r[k] == es[k]))
  {
    var r := es + [Entry(u, s)];
    assert Names(r) == Names(es) + [u];
    UniqueNamesMeans(es);
    UniqueNamesMeans(r);
    forall v ensures IndexOf(r, v) == if v == u then Some(|es|) else IndexOf(es, v) {
      IndexOfAppend(es, Entry(u, s), v);
    }
    forall v | v != u ensures Get(r, v) == Get(es, v) {
      if IndexOf(es, v).Some? {
        assert r[IndexOf(es, v).value] == es[IndexOf(es, v).value];
      }
    }
  }

  /**
    `activeUsers.set(u, s)`: an existing entry for `u` keeps its place and takes
    the new socket; otherwise a new entry is appended. Afterwards `u` maps to
    `s` and every other username maps to what it mapped to before.
   */
  function Set(es: seq<Entry>, u: string, s: SocketId): (r: seq<Entry>)
    ensures Get(r, u) == Some(s)
    ensures forall v :: v != u ==> Get(r, v) == Get(es, v)
    ensures UniqueNames(es) ==> UniqueNames(r)
    ensures Names(r) == if Get(es, u).Some? then Names(es) else Names(es) + [u]
    ensures forall k :: 0 <= k < |r| ==> r[k] == Entry(u, s) || (k < |es| && r[k] == es[k])
  {
    match IndexOf(es, u)
    case Some(j) =>
      SetInPlace(es, j, u, s);
      es[j := Entry(u, s)]
    case None =>
      SetAppend(es, u, s);
      es + [Entry(u, s)]
  }

  /** `activeUsers.delete` of the entry at index `i`. */
  function RemoveAt(es: seq<Entry>, i: nat): (r: seq<Entry>)
    requires i < |es|
    ensures |r| == |es| - 1
    ensures forall k :: 0 <= k < i ==> r[k] == es[k]
    ensures forall k :: i < k < |es| ==> r[k - 1] == es[k]
  {
    seq(|es| - 1, k requires 0 <= k < |es| - 1 => if k < i then es[k] else es[k + 1])
  }

  /** Deleting an entry frees its name and leaves every other name's socket as it was. */
  lemma GetAfterRemove(es: seq<Entry>, i: nat)
    requires UniqueNames(es)
    requires i < |es|
    ensures UniqueNames(RemoveAt(es, i))
    ensures Get(RemoveAt(es, i), es[i].username).None?
    ensures forall v :: v != es[i].username ==> Get(RemoveAt(es, i), v) == Get(es, v)
  {
    var r := RemoveAt(es, i);
    UniqueNamesMeans(es);
    RemoveKeepsUnique(es, i);
    forall k | 0 <= k < |r| ensures r[k].username != es[i].username {
      assert r[k] == if k < i then es[k] else es[k + 1];
    }
    forall v | v != es[i].username ensures Get(r, v) == Get(es, v) {
      GetAfterRemoveOther(es, i, v);
    }
  }

  lemma RemoveKeepsUnique(es: seq<Entry>, i: nat)
    requires UniqueNames(es)
    requires i < |es|
    ensures UniqueNames(RemoveAt(es, i))
  {
    var r := RemoveAt(es, i);
    UniqueNamesMeans(es);
    UniqueNamesMeans(r);
    forall a, b | 0 <= a < b < |r| ensures r[a].username != r[b].username {
      assert r[a] == if a < i then es[a] else es[a + 1];
      assert r[b] == if b < i then es[b] else es[b + 1];
    }
  }

  lemma GetAfterRemoveOther(es: seq<Entry>, i: nat, v: string)
    requires UniqueNames(es)
    requires i < |es| && v != es[i].username
    ensures Get(RemoveAt(es, i), v) == Get(es, v)
  {
    var r := RemoveAt(es, i);
    RemoveKeepsUnique(es, i);
    if Get(es, v).Some? {
      var j :| 0 <= j < |es| && es[j] == Entry(v, Get(es, v).value);
      var k := if j < i then j else j - 1;
      assert r[k] == es[j];
      GetAt(r, k);
    } else {
      forall k | 0 <= k < |r| ensures r[k].username != v {
        assert r[k] == if k < i then es[k] else es[k + 1];
      }
    }
  }

  /**
    When the only name registered from socket `stale` is registered again from
    another socket, no entry holds `stale` any more: its later disconnect finds
    nothing and is a no-op.
   */
  lemma SupersededSocketNotFound(es: seq<Entry>, u: string, stale: SocketId, s: SocketId)
    requires UniqueNames(es)
    requires stale != s
    requires forall i :: 0 <= i < |es| && es[i].socket == stale ==> es[i].username == u
    ensures FirstWithSocket(Set(es, u, s), stale).None?
  {
    var r := Set(es, u, s);
    forall k | 0 <= k < |r| ensures r[k].socket != stale {
      if r[k].socket == stale {
        assert r[k].username == u;
        GetAt(r, k);
        assert false;
      }
    }
  }

  /** Registering a non-empty name to a socket below the bound keeps the registry well formed. */
  lemma SetWellFormed(es: seq<Entry>, u: string, s: SocketId, bound: nat)
    requires WellFormed(es, bound)
    requires u != "" && s < bound
    ensures WellFormed(Set(es, u, s), bound)
  {
  }

  /** Deleting an entry keeps the registry well formed. */
  lemma RemoveWellFormed(es: seq<Entry>, i: nat, bound: nat)
    requires WellFormed(es, bound)
    requires i < |es|
    ensures WellFormed(RemoveAt(es, i), bound)
  {
    GetAfterRemove(es, i);
  }

  /** The index of the first entry whose socket is `s`: where the disconnect scan stops. */
  function FirstWithSocket(es: seq<Entry>, s: SocketId): (r: Option<nat>)
    ensures r.None? <==> forall i :: 0 <= i < |es| ==> es[i].socket != s
    ensures r.Some? ==> r.value < |es| && es[r.value].socket == s
    ensures r.Some? ==> forall i :: 0 <= i < r.value ==> es[i].socket != s
  {
    SocketFrom(es, s, 0)
  }

  /** The index of the first entry from index `i` on whose socket is `s`, if any. */
  function SocketFrom(es: seq<Entry>, s: SocketId, i: nat): (r: Option<nat>)
    requires i <= |es|
    ensures r.None? <==> forall k :: i <= k < |es| ==> es[k].socket != s
    ensures r.Some? ==> i <= r.value < |es| && es[r.value].socket == s
    ensures r.Some? ==> forall k :: i <= k < r.value ==> es[k].socket != s
    decreases |es| - i
  {
    if i == |es| then None
    else if es[i].socket == s then Some(i)
    else SocketFrom(es, s, i + 1)
  }

  /**
    The disconnect handler's scan: walk the entries in insertion order and
    stop at the first one whose socket is `s`.
   */
  method FindBySocket(es: seq<Entry>, s: SocketId) returns (r: Option<nat>)
    ensures r == FirstWithSocket(es, s)
  {
    var i := 0;
    while i < |es|
      invariant 0 <= i <= |es|
      invariant forall k :: 0 <= k < i ==> es[k].socket != s
    {
      if es[i].socket == s {
        return Some(i);
      }
      i := i + 1;
    }
    return None;
  }

  /** The `online-users` payload: `Array.from(activeUsers.keys()).sort()`. */
  function OnlineUsers(es: seq<Entry>): (r: seq<string>)
    ensures |r| == |es|
  {
    Text.SortStrings(Names(es))
  }

  /**
    The `online-users` list is in code unit order and holds exactly the
    registered usernames, each once.
   */
  lemma OnlineUsersAreRegistered(es: seq<Entry>)
    requires UniqueNames(es)
    ensures var r := OnlineUsers(es);
      && (forall i, j :: 0 <= i < j < |r| ==> Text.UnitLessEq(r[i], r[j]))
      && (forall u :: u in r <==> Get(es, u).Some?)
      && |r| == |es|
      && (forall i, j :: 0 <= i < j < |r| ==> r[i] != r[j])
  {
    var r := OnlineUsers(es);
    Text.SortStringsPermutes(Names(es));
    Text.SortStringsSorted(Names(es));
    forall u ensures u in r <==> Get(es, u).Some? {
      OnlineUserIffRegistered(es, u);
    }
    forall i, j | 0 <= i < j < |r| ensures r[i] != r[j] {
      OnlineUsersDistinct(es, i, j);
    }
  }

  lemma OnlineUserIffRegistered(es: seq<Entry>, u: string)
    ensures u in OnlineUsers(es) <==> Get(es, u).Some?
  {
    var ns := Names(es);
    var r := OnlineUsers(es);
    Text.SortStringsPermutes(ns);
    assert u in r <==> u in multiset(r);
    assert u in ns <==> u in multiset(ns);
    if Get(es, u).Some? {
      var k :| 0 <= k < |es| && es[k].username == u;
      assert ns[k] == u;
    }
  }

  lemma OnlineUsersDistinct(es: seq<Entry>, i: nat, j: nat)
    requires UniqueNames(es)
    requires i < j < |OnlineUsers(es)|
    ensures OnlineUsers(es)[i] != OnlineUsers(es)[j]
  {
    var r := OnlineUsers(es);
    Text.SortStringsPermutes(Names(es));
    if r[i] == r[j] {
      RepeatCountsTwice(r, i, j);
      NameCountAtMostOne(es, r[i]);
      assert false;
    }
  }

  lemma RepeatCountsTwice<T>(r: seq<T>, i: nat, j: nat)
    requires i < j < |r| && r[i] == r[j]
    ensures multiset(r)[r[i]] >= 2
  {
    assert r == r[..i] + [r[i]] + r[i + 1..j] + [r[j]] + r[j + 1..];
  }

  /** With unique names, no username occurs twice among the keys. */
  lemma NameCountAtMostOne(es: seq<Entry>, u: string)
    requires UniqueNames(es)
    ensures multiset(Names(es))[u] <= 1
  {
    UniqueNamesMeans(es);
    DistinctCountsOnce(Names(es), u);
  }

  /** In a sequence without repeats every value occurs at most once. */
  lemma {:induction false} DistinctCountsOnce<T>(s: seq<T>, x: T)
    requires forall i, j :: 0 <= i < j < |s| ==> s[i] != s[j]
    ensures multiset(s)[x] <= 1
  {
    if s != [] {
      var rest := s[1..];
      assert s == [s[0]] + rest;
      assert forall i, j :: 0 <= i < j < |rest| ==> rest[i] == s[i + 1] && rest[j] == s[j + 1];
      DistinctCountsOnce(rest, x);
      if s[0] == x {
        assert x !in rest by {
          forall k | 0 <= k < |rest| ensures rest[k] != x {
            assert rest[k] == s[k + 1];
          }
        }
      }
    }
  }
}
