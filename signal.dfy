/**
 The value-level specification of the signalling relay: the channel registry
 as a map from channel identifier to the ordered list of its connections, and
 the sends the relay performs, as functions of that map. The connection type
 `C` is left generic; equality on it is the relay's identity test between
 connections.
 */
module Signal {

  datatype Option<T> = None | Some(value: T)

  /** One call of `send` on a connection: who receives what. */
  datatype Send<C> = Send(to: C, payload: string)

  /** Length of every accepted channel identifier (the client's generator output length). */
  const IdLength: nat := 21

  /** Control message telling both members of a channel to start peer negotiation. */
  const StartPeering: string := "START_PEERING"

  /** Age, in milliseconds, above which the periodic sweep closes a connection. */
  const MaxAge: int := 1000 * 60 * 5

  /** Registry: channel identifier to its members in admission order. */
  type Channels<C> = map<string, seq<C>>

  // ---------------------------------------------------------------------------
  // Admission

  /** The channel identifier is the request path without its first character. */
  function ChannelIdOf(url: string): (id: string)
    ensures |url| > 0 ==> url == url[..1] + id
    ensures |url| == 0 ==> id == ""
  {
    if |url| == 0 then "" else url[1..]
  }

  /** The admission test: the identifier is present and exactly `IdLength` long. */
  predicate ValidChannelId(id: string)
  {
    !(id == "" || |id| != IdLength)
  }

  /** Members of `id`, the empty list standing for an absent entry. */
  function MembersOf<C>(channels: Channels<C>, id: string): seq<C>
  {
    if id in channels then channels[id] else []
  }

  /** Appends `c` to the list of `id`, creating the list when it is absent. */
  function Join<C>(channels: Channels<C>, id: string, c: C): (r: Channels<C>)
    ensures r.Keys == channels.Keys + {id}
    ensures |r[id]| > 0 && r[id][|r[id]| - 1] == c
    ensures r[id][..|r[id]| - 1] == MembersOf(channels, id)
    ensures forall k | k in channels && k != id :: r[k] == channels[k]
  {
    var members := MembersOf(channels, id) + [c];
    assert members[..|members| - 1] == MembersOf(channels, id);
    var r := channels[id := members];
    assert r[id] == members;
    assert r.Keys == channels.Keys + {id};
    r
  }

  /** Every channel in the registry has at least one member. */
  ghost predicate NonEmptyEntries<C>(channels: Channels<C>)
  {
    forall id | id in channels :: channels[id] != []
  }

  /** A sequence with no connection listed twice. */
  ghost predicate NoDuplicates<C>(s: seq<C>)
  {
    forall i, j | 0 <= i < j < |s| :: s[i] != s[j]
  }

  // ---------------------------------------------------------------------------
  // Sends

  /** Sends `msg` to every member, in list order. */
  function Broadcast<C>(members: seq<C>, msg: string): seq<Send<C>>
  {
    if members == [] then []
    else Broadcast(members[..|members| - 1], msg) + [Send(members[|members| - 1], msg)]
  }

  /** What admission sends: `StartPeering` to all members exactly when there are two. */
  function PairingSends<C>(members: seq<C>): seq<Send<C>>
  {
    if |members| == 2 then Broadcast(members, StartPeering) else []
  }

  /** The relay loop: walk the members in order, skip the sender, send `msg` to the rest. */
  function Fanout<C(==)>(members: seq<C>, sender: C, msg: string): seq<Send<C>>
  {
    if members == [] then []
    else
      var last := members[|members| - 1];
      Fanout(members[..|members| - 1], sender, msg)
        + (if last == sender then [] else [Send(last, msg)])
  }

  /** The receivers of a sequence of sends, in order. */
  function Recipients<C>(sends: seq<Send<C>>): (r: seq<C>)
    ensures |r| == |sends|
    ensures forall i | 0 <= i < |sends| :: r[i] == sends[i].to
  {
    if sends == [] then []
    else Recipients(sends[..|sends| - 1]) + [sends[|sends| - 1].to]
  }

  // ---------------------------------------------------------------------------
  // Cleanup

  /** The list filtered to the connections other than `c`, in list order. */
  function Without<C(==)>(members: seq<C>, c: C): seq<C>
  {
    if members == [] then []
    else
      var last := members[|members| - 1];
      Without(members[..|members| - 1], c) + (if last == c then [] else [last])
  }

  /**
   Cleanup as the handler is written: `None` stands for the TypeError raised
   when the entry of `id` no longer exists; otherwise the filtered registry,
   with the entry deleted when its list became empty.
   */
  function CleanupAsWritten<C(==)>(channels: Channels<C>, id: string, c: C): (r: Option<Channels<C>>)
    ensures r.None? <==> id !in channels
  {
    if id !in channels then None
    else
      var rest := Without(channels[id], c);
      Some(if rest == [] then channels - {id} else channels[id := rest])
  }

  /** Cleanup made total: evicting from an absent entry leaves the registry alone. */
  function Evict<C(==)>(channels: Channels<C>, id: string, c: C): Channels<C>
  {
    match CleanupAsWritten(channels, id, c)
    case None => channels
    case Some(r) => r
  }

  // ---------------------------------------------------------------------------
  // Staleness sweep

  /**
   The sweep's test for one connection. An unstamped connection (`None`)
   never qualifies: subtracting an undefined time gives NaN, and NaN is not
   greater than anything.
   */
  predicate IsStale(open: bool, connectionTime: Option<int>, now: int)
  {
    open && connectionTime.Some? && now - connectionTime.value > MaxAge
  }

  // ===========================================================================
  // Lemmas: the filter

  lemma {:induction false} WithoutMembers<C>(members: seq<C>, c: C)
    ensures forall x :: x in Without(members, c) <==> x in members && x != c
    ensures |Without(members, c)| <= |members|
  {
    if members != [] {
      var init := members[..|members| - 1];
      WithoutMembers(init, c);
      assert members == init + [members[|members| - 1]];
    }
  }

  /** Filtering distributes over concatenation, so the kept members keep their relative order. */
  lemma {:induction false} WithoutConcat<C>(a: seq<C>, b: seq<C>, c: C)
    ensures Without(a + b, c) == Without(a, c) + Without(b, c)
  {
    if b == [] {
      assert a + b == a;
    } else {
      var init := b[..|b| - 1];
      WithoutConcat(a, init, c);
      assert (a + b)[..|a + b| - 1] == a + init;
    }
  }

  /** Filtering a list that does not hold `c` changes nothing. */
  lemma {:induction false} WithoutAbsent<C>(members: seq<C>, c: C)
    requires c !in members
    ensures Without(members, c) == members
  {
    if members != [] {
      var init := members[..|members| - 1];
      WithoutAbsent(init, c);
      assert members == init + [members[|members| - 1]];
    }
  }

  lemma WithoutIdempotent<C>(members: seq<C>, c: C)
    ensures Without(Without(members, c), c) == Without(members, c)
  {
    WithoutMembers(members, c);
    WithoutAbsent(Without(members, c), c);
  }

  lemma {:induction false} WithoutKeepsDistinct<C>(members: seq<C>, c: C)
    requires NoDuplicates(members)
    ensures NoDuplicates(Without(members, c))
  {
    if members != [] {
      var init := members[..|members| - 1];
      var last := members[|members| - 1];
      assert NoDuplicates(init);
      WithoutKeepsDistinct(init, c);
      WithoutMembers(init, c);
      assert last !in init;
    }
  }

  /** Removing a distinct member shortens the list by exactly one. */
  lemma {:induction false} WithoutDropsOne<C>(members: seq<C>, c: C)
    requires NoDuplicates(members)
    ensures |Without(members, c)| == if c in members then |members| - 1 else |members|
  {
    if members != [] {
      var init := members[..|members| - 1];
      var last := members[|members| - 1];
      assert members == init + [last];
      assert NoDuplicates(init);
      assert last !in init;
      WithoutDropsOne(init, c);
    }
  }

  // ===========================================================================
  // Lemmas: sends

  lemma {:induction false} BroadcastAt<C>(members: seq<C>, msg: string)
    ensures |Broadcast(members, msg)| == |members|
    ensures forall i | 0 <= i < |members| :: Broadcast(members, msg)[i] == Send(members[i], msg)
  {
    if members != [] {
      BroadcastAt(members[..|members| - 1], msg);
    }
  }

  /** The relay loop is a broadcast of the payload to the filtered member list. */
  lemma {:induction false} FanoutIsBroadcastToOthers<C>(members: seq<C>, sender: C, msg: string)
    ensures Fanout(members, sender, msg) == Broadcast(Without(members, sender), msg)
  {
    if members != [] {
      var init := members[..|members| - 1];
      var last := members[|members| - 1];
      FanoutIsBroadcastToOthers(init, sender, msg);
      assert members[..|members| - 1] == init;
      assert Fanout(members, sender, msg) == Fanout(init, sender, msg) + (if last == sender then [] else [Send(last, msg)]);
      assert Without(members, sender) == Without(init, sender) + (if last == sender then [] else [last]);
      if last != sender {
        var w := Without(init, sender) + [last];
        assert w[..|w| - 1] == Without(init, sender);
        assert Broadcast(w, msg) == Broadcast(Without(init, sender), msg) + [Send(last, msg)];
      } else {
        assert Without(members, sender) == Without(init, sender);
        assert Fanout(members, sender, msg) == Fanout(init, sender, msg);
      }
    }
  }

  lemma {:induction false} RecipientsOfBroadcast<C>(members: seq<C>, msg: string)
    ensures Recipients(Broadcast(members, msg)) == members
  {
    BroadcastAt(members, msg);
  }

  /** Number of occurrences of `x` in `s`. */
  function Occurrences<C(==)>(s: seq<C>, x: C): nat
  {
    multiset(s)[x]
  }

  lemma {:induction false} DistinctOccursOnce<C>(s: seq<C>, x: C)
    requires NoDuplicates(s)
    ensures Occurrences(s, x) == if x in s then 1 else 0
  {
    if s != [] {
      var init := s[..|s| - 1];
      var last := s[|s| - 1];
      assert s == init + [last];
      assert NoDuplicates(init);
      assert last !in init;
      DistinctOccursOnce(init, x);
    }
  }

  /**
   Relay exclusivity: the receivers of a relayed message are the other
   members in list order, the sender is not among them, and every send
   carries the payload unchanged.
   */
  lemma RelayExclusive<C>(members: seq<C>, sender: C, msg: string)
    ensures Recipients(Fanout(members, sender, msg)) == Without(members, sender)
    ensures sender !in Recipients(Fanout(members, sender, msg))
    ensures forall k | 0 <= k < |Fanout(members, sender, msg)| :: Fanout(members, sender, msg)[k].payload == msg
  {
    FanoutIsBroadcastToOthers(members, sender, msg);
    var others := Without(members, sender);
    RecipientsOfBroadcast(others, msg);
    BroadcastAt(others, msg);
    WithoutMembers(members, sender);
  }

  /** With distinct members, each member other than the sender receives exactly one copy. */
  lemma RelayOneCopyEach<C>(members: seq<C>, sender: C, msg: string, x: C)
    requires NoDuplicates(members) && x in members
    ensures Occurrences(Recipients(Fanout(members, sender, msg)), x) == if x == sender then 0 else 1
  {
    RelayExclusive(members, sender, msg);
    WithoutMembers(members, sender);
    WithoutKeepsDistinct(members, sender);
    DistinctOccursOnce(Without(members, sender), x);
  }

  /** A sole member relays to nobody: the message is dropped. */
  lemma SoleMemberDropsMessage<C>(c: C, msg: string)
    ensures Fanout([c], c, msg) == []
  {
  }

  // ===========================================================================
  // Lemmas: admission and pairing

  /**
   Pairing exactness: admitting `c` to `id` sends anything if and only if the
   entry held exactly one member before; then it sends `StartPeering` once to
   that member and once to `c`, in that order.
   */
  lemma PairingExact<C>(channels: Channels<C>, id: string, c: C)
    ensures PairingSends(Join(channels, id, c)[id]) != [] <==> id in channels && |channels[id]| == 1
    ensures id in channels && |channels[id]| == 1 ==>
      PairingSends(Join(channels, id, c)[id]) == [Send(channels[id][0], StartPeering), Send(c, StartPeering)]
  {
    var after := Join(channels, id, c)[id];
    BroadcastAt(after, StartPeering);
  }

  lemma JoinKeepsNonEmpty<C>(channels: Channels<C>, id: string, c: C)
    requires NonEmptyEntries(channels)
    ensures NonEmptyEntries(Join(channels, id, c))
  {
  }

  /** Admitting the members `cs` one after another to `id`: the registry and what was sent. */
  function JoinAll<C>(channels: Channels<C>, id: string, cs: seq<C>): (Channels<C>, seq<Send<C>>)
  {
    if cs == [] then (channels, [])
    else
      var (before, sent) := JoinAll(channels, id, cs[..|cs| - 1]);
      var after := Join(before, id, cs[|cs| - 1]);
      (after, sent + PairingSends(after[id]))
  }

  /** Admissions to a fresh identifier build its list in admission order. */
  lemma {:induction false} JoinAllBuildsList<C>(channels: Channels<C>, id: string, cs: seq<C>)
    requires id !in channels
    ensures cs != [] ==> id in JoinAll(channels, id, cs).0 && JoinAll(channels, id, cs).0[id] == cs
    ensures cs == [] ==> id !in JoinAll(channels, id, cs).0
  {
    if cs != [] {
      var init := cs[..|cs| - 1];
      JoinAllBuildsList(channels, id, init);
      assert MembersOf(JoinAll(channels, id, init).0, id) == init;
      assert cs == init + [cs[|cs| - 1]];
    }
  }

  /**
   Admissions to a fresh identifier, with no cleanup in between, fire the
   pairing broadcast once, to the first two members, however many follow.
   */
  lemma {:induction false} PairingFiresOnce<C>(channels: Channels<C>, id: string, cs: seq<C>)
    requires id !in channels
    ensures JoinAll(channels, id, cs).1 ==
      if |cs| < 2 then [] else [Send(cs[0], StartPeering), Send(cs[1], StartPeering)]
  {
    if cs != [] {
      var init := cs[..|cs| - 1];
      PairingFiresOnce(channels, id, init);
      JoinAllBuildsList(channels, id, cs);
      var sent := JoinAll(channels, id, init).1;
      assert JoinAll(channels, id, cs).1 == sent + PairingSends(cs);
      if |cs| == 2 {
        BroadcastAt(cs, StartPeering);
      } else if |cs| > 2 {
        assert init[0] == cs[0] && init[1] == cs[1];
      }
    }
  }

  /**
   The pairing broadcast is tied to the length reaching two, not to the
   channel: after a member leaves a paired channel, the next admission
   fires it again.
   */
  lemma PairingRefiresAfterLeave<C>(channels: Channels<C>, id: string, a: C, b: C, leaving: C, d: C)
    requires id in channels && channels[id] == [a, b] && a != b
    requires leaving == a || leaving == b
    ensures PairingSends(Join(Evict(channels, id, leaving), id, d)[id])
      == Broadcast([if leaving == a then b else a, d], StartPeering)
  {
    var other := if leaving == a then b else a;
    assert [a, b][..1] == [a];
    assert [a][..0] == [];
    assert Without([a], leaving) == Without([], leaving) + (if a == leaving then [] else [a]);
    assert Without([a, b], leaving) == Without([a], leaving) + (if b == leaving then [] else [b]);
    assert Without([a, b], leaving) == [other];
    var left := Evict(channels, id, leaving);
    assert left == channels[id := [other]];
    assert Join(left, id, d)[id] == [other, d];
  }

  // ===========================================================================
  // Lemmas: cleanup

  /**
   Cleanup removal and deletion: after evicting `c` from its entry, `c` is no
   longer a member; if the filtered list is empty the entry is gone, otherwise
   it is the filtered list; other entries are untouched.
   */
  lemma EvictRemoves<C>(channels: Channels<C>, id: string, c: C)
    requires id in channels
    ensures id in Evict(channels, id, c) <==> Without(channels[id], c) != []
    ensures id in Evict(channels, id, c) ==>
      Evict(channels, id, c)[id] == Without(channels[id], c) && c !in Evict(channels, id, c)[id]
    ensures forall k | k != id :: (k in Evict(channels, id, c) <==> k in channels)
    ensures forall k | k in channels && k != id :: Evict(channels, id, c)[k] == channels[k]
  {
    WithoutMembers(channels[id], c);
  }

  /** Eviction keeps every registry entry non-empty. */
  lemma EvictKeepsNonEmpty<C>(channels: Channels<C>, id: string, c: C)
    requires NonEmptyEntries(channels)
    ensures NonEmptyEntries(Evict(channels, id, c))
  {
  }

  /** Cleaning up a connection that is not in a present entry changes nothing. */
  lemma EvictNonMember<C>(channels: Channels<C>, id: string, c: C)
    requires id in channels && channels[id] != [] && c !in channels[id]
    ensures CleanupAsWritten(channels, id, c) == Some(channels)
  {
    WithoutAbsent(channels[id], c);
    assert channels[id := channels[id]] == channels;
  }

  /** While the entry survives the first cleanup, a second one changes nothing and does not throw. */
  lemma CleanupTwiceWhilePresent<C>(channels: Channels<C>, id: string, c: C)
    requires CleanupAsWritten(channels, id, c).Some?
    requires id in CleanupAsWritten(channels, id, c).value
    ensures CleanupAsWritten(CleanupAsWritten(channels, id, c).value, id, c) == CleanupAsWritten(channels, id, c)
  {
    var once := CleanupAsWritten(channels, id, c).value;
    WithoutIdempotent(channels[id], c);
    assert once[id] == Without(channels[id], c);
    assert once[id := once[id]] == once;
  }

  /**
   The cleanup handler runs on both `error` and `close`. When the connection
   was the sole member, the first run deletes the entry and the second finds
   it absent and throws.
   */
  lemma SecondCleanupThrows<C>(channels: Channels<C>, id: string, c: C)
    requires id in channels && channels[id] == [c]
    ensures CleanupAsWritten(channels, id, c) == Some(channels - {id})
    ensures CleanupAsWritten(channels - {id}, id, c).None?
  {
    assert [c][..0] == [];
    assert Without([c], c) == Without([], c) + [];
  }

  /** The total eviction is idempotent on every registry. */
  lemma EvictIdempotent<C>(channels: Channels<C>, id: string, c: C)
    ensures Evict(Evict(channels, id, c), id, c) == Evict(channels, id, c)
  {
    if id in channels && id in Evict(channels, id, c) {
      CleanupTwiceWhilePresent(channels, id, c);
    }
  }

  /** With distinct members, eviction lowers the member count by at most one and never below zero. */
  lemma EvictCount<C>(channels: Channels<C>, id: string, c: C)
    requires id in channels && NoDuplicates(channels[id])
    ensures |MembersOf(Evict(channels, id, c), id)| == if c in channels[id] then |channels[id]| - 1 else |channels[id]|
  {
    WithoutDropsOne(channels[id], c);
  }

  // ===========================================================================
  // Lemmas: staleness

  /** The age bound is strict: a connection exactly `MaxAge` old survives, one a millisecond older does not. */
  lemma StaleBoundary(t: int)
    ensures !IsStale(true, Some(t), t + MaxAge)
    ensures IsStale(true, Some(t), t + MaxAge + 1)
    ensures forall now :: !IsStale(false, Some(t), now)
  {
  }
}
