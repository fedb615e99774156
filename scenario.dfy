/**
 Clients of the handlers: two connections pair on one identifier, one
 message is relayed, both leave, and the last leaving connection's second
 cleanup (its `close` after an `error`) throws. Every assertion follows from
 the handlers' contracts alone.
 */
module Scenario {
  import opened Signal
  import opened Server

  const Url: string := "/abcdefghijklmnopqrst1"
  const Id: string := "abcdefghijklmnopqrst1"

  /** x joins and waits, y joins and both are told to start, x's message reaches y only. */
  method PairThenRelay()
  {
    var registry := new Registry();
    var x := new Connection();
    var y := new Connection();
    assert ChannelIdOf(Url) == Id && ValidChannelId(Id);

    registry.Admit(x, Url, 1000);
    assert registry.channels == map[Id := [x]];
    assert registry.outbox == [];

    registry.Admit(y, Url, 2000);
    assert registry.channels[Id] == [x, y];
    BroadcastAt([x, y], StartPeering);
    assert registry.outbox == [Send(x, StartPeering), Send(y, StartPeering)];

    var thrown := registry.Forward(x, "hello");
    SoleMemberDropsMessage(x, "hello");
    assert [x, y][..1] == [x];
    assert Fanout([x, y], x, "hello") == [Send(y, "hello")];
    assert !thrown;
    assert registry.outbox == [Send(x, StartPeering), Send(y, StartPeering), Send(y, "hello")];
  }

  /** From a paired channel: y leaves, then x leaves, then x's second cleanup throws. */
  method LeaveInTurn(registry: Registry, x: Connection, y: Connection)
    requires registry.Valid() && x != y && registry.channels == map[Id := [x, y]]
    modifies registry
  {
    assert x in registry.channels[Id] && y in registry.channels[Id];
    assert x.channelId == Id && y.channelId == Id;
    var thrown := registry.Cleanup(y);
    assert [x, y][..1] == [x] && [x][..0] == [];
    assert Without([x], y) == Without([], y) + [x];
    assert Without([x, y], y) == [x];
    assert !thrown && registry.channels == map[Id := [x]];

    thrown := registry.Cleanup(x);
    assert Without([x], x) == Without([], x) + [];
    assert !thrown && registry.channels == map[];

    thrown := registry.Cleanup(x);
    assert thrown && registry.channels == map[];
  }

  /** A connection whose path is too short is closed and the registry is untouched. */
  method RejectShortId()
  {
    var registry := new Registry();
    var z := new Connection();
    registry.Admit(z, "/short", 3000);
    assert !z.open && registry.channels == map[] && registry.outbox == [];
  }
}
