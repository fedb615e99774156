/**
 The relay's event handlers over its mutable state: the global channel
 registry, the fields the connection handler stamps on each connection, and
 the connections' OPEN state. Every `send` is recorded in the registry's
 outbox and every `close` clears a connection's `open` flag, in place of the
 transport. Each handler runs to completion as one method, as it does on the
 single-threaded event loop.
 */
module Server {
  import opened Signal

  /** One WebSocket connection and the fields the relay sets on it. */
  class Connection {
    /** Channel identifier, stamped on admission ("" while unset). */
    var channelId: string
    /** Admission time in milliseconds; `None` while unset. */
    var connectionTime: Option<int>
    /** Whether the connection's ready state is OPEN. */
    var open: bool

    /** A connection as the server hands it to the connection handler. */
    constructor ()
      ensures channelId == "" && connectionTime == None && open
    {
      channelId := "";
      connectionTime := None;
      open := true;
    }
  }

  /** The global channel registry and the log of everything sent. */
  class Registry {
    var channels: Channels<Connection>
    var outbox: seq<Send<Connection>>

    /** Every connection listed in some channel. */
    ghost function Members(): set<Connection>
      reads this`channels
    {
      set id, c | id in channels && c in channels[id] :: c
    }

    /**
     The registry invariant: no entry is empty, no connection is listed twice,
     and every member is listed under the identifier stamped on it.
     */
    ghost predicate Valid()
      reads this`channels, Members()
    {
      && NonEmptyEntries(channels)
      && (forall id | id in channels :: NoDuplicates(channels[id]))
      && (forall id, c | id in channels && c in channels[id] :: c.channelId == id)
    }

    constructor ()
      ensures Valid() && channels == map[] && outbox == []
    {
      channels := map[];
      outbox := [];
    }

    /**
     The connection handler. An identifier taken from `url` that is empty or
     not `IdLength` long closes the connection and changes nothing else.
     Otherwise the connection is stamped, appended to its channel, and, when
     the channel now has exactly two members, each of them is sent
     `StartPeering`.
     */
    method Admit(c: Connection, url: string, now: int)
      requires Valid() && c !in Members()
      modifies this, c
      ensures Valid()
      ensures ValidChannelId(ChannelIdOf(url)) ==>
        && c.channelId == ChannelIdOf(url) && c.connectionTime == Some(now) && c.open == old(c.open)
        && channels == Join(old(channels), ChannelIdOf(url), c)
        && outbox == old(outbox) + PairingSends(channels[ChannelIdOf(url)])
        && Members() == old(Members()) + {c}
      ensures !ValidChannelId(ChannelIdOf(url)) ==>
        && !c.open && c.channelId == old(c.channelId) && c.connectionTime == old(c.connectionTime)
        && channels == old(channels) && outbox == old(outbox)
    {
      var id := ChannelIdOf(url);
      if !ValidChannelId(id) {
        c.open := false;
        return;
      }
      ghost var before := Members();
      c.channelId := id;
      c.connectionTime := Some(now);
      assert Members() == before;
      assert Valid();
      Enlist(c);
      if |channels[id]| == 2 {
        SendToAll(channels[id], StartPeering);
      } else {
        assert outbox == old(outbox) + PairingSends(channels[id]);
      }
    }

    /** Push `c` onto the list of the identifier stamped on it, creating the list if absent. */
    method Enlist(c: Connection)
      requires Valid() && c !in Members()
      modifies this`channels
      ensures Valid()
      ensures channels == Join(old(channels), c.channelId, c)
      ensures Members() == old(Members()) + {c}
    {
      var id := c.channelId;
      var members := if id in channels then channels[id] else [];
      assert c !in members;
      members := members + [c];
      assert NoDuplicates(members);
      channels := channels[id := members];
      forall x | x in old(Members())
        ensures x in Members()
      {
        var k :| k in old(channels) && x in old(channels)[k];
        assert x in channels[k];
      }
      assert c in channels[id];
      assert Members() <= old(Members()) + {c};
      forall k, x | k in channels && x in channels[k]
        ensures x.channelId == k
      {
        if x != c {
          assert k in old(channels) && x in old(channels)[k];
        }
      }
    }

    /** Send `msg` to each of `members`, in list order. */
    method SendToAll(members: seq<Connection>, msg: string)
      modifies this`outbox
      ensures outbox == old(outbox) + Broadcast(members, msg)
    {
      for i := 0 to |members|
        invariant outbox == old(outbox) + Broadcast(members[..i], msg)
      {
        assert members[..i + 1][..i] == members[..i];
        outbox := outbox + [Send(members[i], msg)];
      }
      assert members[..|members|] == members;
    }

    /**
     The message handler of `sender`: each other member of its channel, in
     list order, is sent `msg` unchanged. When the channel entry no longer
     exists the handler throws (`thrown`) and sends nothing.
     */
    method Forward(sender: Connection, msg: string) returns (thrown: bool)
      modifies this`outbox
      ensures thrown <==> sender.channelId !in channels
      ensures outbox == old(outbox) + if thrown then [] else Fanout(channels[sender.channelId], sender, msg)
    {
      if sender.channelId !in channels {
        return true;
      }
      var members := channels[sender.channelId];
      for i := 0 to |members|
        invariant outbox == old(outbox) + Fanout(members[..i], sender, msg)
      {
        assert members[..i + 1][..i] == members[..i];
        if members[i] != sender {
          outbox := outbox + [Send(members[i], msg)];
        }
      }
      assert members[..|members|] == members;
      thrown := false;
    }

    /**
     The close and error handler of `c`: its channel's list is filtered to the
     other members and the entry is deleted once empty. When the entry no
     longer exists the handler throws (`thrown`) and the registry is left as
     it was, which is what `Evict` gives in that case.
     */
    method Cleanup(c: Connection) returns (thrown: bool)
      requires Valid()
      modifies this`channels
      ensures Valid()
      ensures thrown <==> c.channelId !in old(channels)
      ensures channels == Evict(old(channels), c.channelId, c)
      ensures Members() == old(Members()) - {c}
    {
      var id := c.channelId;
      if id !in channels {
        assert c !in Members();
        return true;
      }
      WithoutMembers(channels[id], c);
      WithoutKeepsDistinct(channels[id], c);
      channels := channels[id := Without(channels[id], c)];
      if |channels[id]| == 0 {
        channels := channels - {id};
      }
      thrown := false;
      assert Members() <= old(Members()) - {c};
      forall x | x in old(Members()) - {c}
        ensures x in Members()
      {
        var k :| k in old(channels) && x in old(channels)[k];
        assert k in channels && x in channels[k];
      }
    }
  }

  /**
   The periodic sweep over all of the server's connections: closes exactly
   those that are OPEN and older than `MaxAge` at `now`, and returns them.
   Closing does not touch the registry; the connection's close event does
   that later, through `Cleanup`.
   */
  method Sweep(clients: set<Connection>, now: int) returns (closed: set<Connection>)
    modifies clients
    ensures closed == set c | c in clients && IsStale(old(c.open), old(c.connectionTime), now)
    ensures forall c | c in clients :: c.open == (old(c.open) && !IsStale(old(c.open), old(c.connectionTime), now))
    ensures forall c | c in clients :: c.channelId == old(c.channelId) && c.connectionTime == old(c.connectionTime)
  {
    closed := {};
    var pending := clients;
    while pending != {}
      invariant pending <= clients
      invariant closed == set c | c in clients - pending && IsStale(old(c.open), old(c.connectionTime), now)
      invariant forall c | c in clients - pending :: c.open == (old(c.open) && !IsStale(old(c.open), old(c.connectionTime), now))
      invariant forall c | c in pending :: c.open == old(c.open)
      invariant forall c | c in clients :: c.channelId == old(c.channelId) && c.connectionTime == old(c.connectionTime)
      decreases pending
    {
      var c :| c in pending;
      if IsStale(c.open, c.connectionTime, now) {
        c.open := false;
        closed := closed + {c};
      }
      pending := pending - {c};
    }
  }
}
