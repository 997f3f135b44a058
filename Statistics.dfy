/** The connection-accounting table: client address to the instant the
    client connected. The clock is not read here; every operation that
    needs the current instant takes it as a parameter, as a count of
    nanoseconds. */
module Statistics {
  import opened ByteStrings

  /** A wall-clock reading, in nanoseconds. */
  type Instant = int

  class Statistics {
    /** `connectedClientsWithUptime`. */
    var connections: map<Bytes, Instant>

    /** NewStatisticsStore: the table is the map passed in, taken as a
        value. */
    constructor(table: map<Bytes, Instant>)
      ensures connections == table
    {
      connections := table;
    }

    /** AddConnection: the address now maps to `now`, replacing any earlier
        entry for it; every other address keeps its entry. */
    method AddConnection(address: Bytes, now: Instant)
      modifies this
      ensures connections == old(connections)[address := now]
      ensures address in connections && connections[address] == now
      ensures forall a | a != address :: (a in connections <==> a in old(connections))
      ensures forall a | a != address && a in connections :: connections[a] == old(connections)[a]
    {
      connections := connections[address := now];
    }

    /** RemoveConnection: the address has no entry any more; every other
        address keeps its entry, and removing an absent address changes
        nothing. */
    method RemoveConnection(address: Bytes)
      modifies this
      ensures connections == old(connections) - {address}
      ensures address !in connections
      ensures address !in old(connections) ==> connections == old(connections)
    {
      connections := connections - {address};
    }

    /** GetUptime: `(0, false)` for an address with no entry; otherwise the
        time elapsed since it connected, and `true`. */
    method GetUptime(address: Bytes, now: Instant) returns (uptime: int, found: bool)
      ensures found <==> address in connections
      ensures !found ==> uptime == 0
      ensures found ==> uptime == now - connections[address]
    {
      if address !in connections {
        return 0, false;
      }
      var startTime := connections[address];
      uptime := now - startTime;
      found := true;
    }

    /** GetConnectionData: the current table. */
    method GetConnectionData() returns (table: map<Bytes, Instant>)
      ensures table == connections
    {
      table := connections;
    }
  }

  /** A client's lifetime in the table, from a table that may already hold
      entries: after it connects at `t` its uptime at `now` is `now - t`
      and the table shows it; every other client is untouched throughout;
      after it disconnects it has no uptime and the table is the starting
      one without it. */
  method ConnectionLifecycle(table: map<Bytes, Instant>, address: Bytes, t: Instant, now: Instant)
    returns (uptime: int, found: bool, uptimeAfter: int, foundAfter: bool,
             during: map<Bytes, Instant>, after: map<Bytes, Instant>)
    ensures found && uptime == now - t
    ensures during == table[address := t]
    ensures !foundAfter && uptimeAfter == 0
    ensures after == table - {address}
    ensures address !in table ==> after == table
  {
    var stats := new Statistics(table);
    stats.AddConnection(address, t);
    uptime, found := stats.GetUptime(address, now);
    during := stats.GetConnectionData();
    stats.RemoveConnection(address);
    uptimeAfter, foundAfter := stats.GetUptime(address, now);
    after := stats.GetConnectionData();
    assert table[address := t] - {address} == table - {address};
  }
}
