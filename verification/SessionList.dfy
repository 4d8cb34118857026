/** The singly linked list of sessions that both lws plugins keep, as the sequence of its entries. */
module SessionList {
  type SessionId = nat

  predicate Distinct(list: seq<SessionId>) { forall i, j :: 0 <= i < j < |list| ==> list[i] != list[j] }

  ghost predicate Enumerates(list: seq<SessionId>, members: set<SessionId>) {
    Distinct(list) && forall s :: s in list <==> s in members
  }

  lemma EnumeratesPush(list: seq<SessionId>, members: set<SessionId>, s: SessionId)
    requires Enumerates(list, members) && s !in members
    ensures Enumerates([s] + list, members + {s})
  {
  }

  /** Unlinking an entry. */
  function Unlink(list: seq<SessionId>, s: SessionId): seq<SessionId> {
    if list == [] then [] else if list[0] == s then list[1..] else [list[0]] + Unlink(list[1..], s)
  }

  lemma {:induction false} UnlinkEnumerates(list: seq<SessionId>, members: set<SessionId>, s: SessionId)
    requires Enumerates(list, members)
    ensures Enumerates(Unlink(list, s), members - {s})
  {
    if list != [] {
      var head := list[0];
      assert head in list && list == [head] + list[1..];
      assert forall i :: 1 <= i < |list| ==> list[i] != head && list[1..][i - 1] == list[i];
      assert head !in list[1..];
      if head == s {
        assert Enumerates(list[1..], members - {s});
      } else {
        assert Enumerates(list[1..], members - {head});
        UnlinkEnumerates(list[1..], members - {head}, s);
        EnumeratesPush(Unlink(list[1..], s), members - {head} - {s}, head);
        assert members - {head} - {s} + {head} == members - {s};
      }
    }
  }

  lemma NotBefore(list: seq<SessionId>, i: nat)
    requires Distinct(list) && i < |list|
    ensures list[i] in list && list[i] !in list[..i] && list[..i + 1] == list[..i] + [list[i]]
  {
  }

  /** `after` is `before` without its entry `s` at `i`, everything else in the same order. */
  predicate WithoutAt(before: seq<SessionId>, s: SessionId, after: seq<SessionId>, i: nat) {
    i < |before| && before[i] == s && after == before[..i] + before[i + 1..]
  }

  ghost predicate Without(before: seq<SessionId>, s: SessionId, after: seq<SessionId>) {
    exists i: nat :: WithoutAt(before, s, after, i)
  }

  lemma {:induction false} UnlinkKeepsOrder(list: seq<SessionId>, s: SessionId)
    requires s in list
    ensures Without(list, s, Unlink(list, s))
  {
    hide WithoutAt;
    if list[0] == s {
      WithoutFirst(list);
    } else {
      var tail := list[1..];
      UnlinkKeepsOrder(tail, s);
      var i: nat :| WithoutAt(tail, s, Unlink(tail, s), i);
      WithoutBehind(list[0], tail, s, Unlink(tail, s), i);
      assert list == [list[0]] + tail;
    }
  }

  lemma WithoutFirst(list: seq<SessionId>)
    requires list != []
    ensures WithoutAt(list, list[0], list[1..], 0)
  {
    assert list[1..] == list[..0] + list[0 + 1..];
  }

  lemma WithoutBehind(head: SessionId, before: seq<SessionId>, s: SessionId, after: seq<SessionId>, i: nat)
    requires WithoutAt(before, s, after, i)
    ensures WithoutAt([head] + before, s, [head] + after, i + 1)
  {
    assert ([head] + before)[..i + 1] == [head] + before[..i];
    assert ([head] + before)[i + 2..] == before[i + 1..];
    assert [head] + (before[..i] + before[i + 1..]) == ([head] + before[..i]) + before[i + 1..];
  }
}
