/** `server_handle_queue`: the server's reaction to one event record read
    off the queue. It is the only code that changes the connection
    directory. */
module Server {
  import opened Common
  import opened Connections
  import opened Queues
  import opened Directory
  import Formatting
  import Misc

  /** The directory key for a connection: the `sizeof(fd)` bytes of its
      descriptor as they sit in memory (two's complement, little-endian). */
  function FdKey(fd: int32): (k: Bytes)
    ensures |k| == 4
    ensures FromLittleEndian(k) == fd as int % TWO_TO_THE_32
  {
    var n := if fd < 0 then fd as int + TWO_TO_THE_32 else fd as int;
    Pow256Values();
    LittleEndianRoundTrip(n, 4);
    LittleEndian(n, 4)
  }

  /** Different descriptors give different keys. */
  lemma FdKeyInjective(a: int32, b: int32)
    requires FdKey(a) == FdKey(b)
    ensures a == b
  {
    Pow256Values();
    LittleEndianRoundTrip(if a < 0 then a as int + TWO_TO_THE_32 else a as int, 4);
    LittleEndianRoundTrip(if b < 0 then b as int + TWO_TO_THE_32 else b as int, 4);
  }

  /** One call of `broadcast_message`: the payload handed over and the
      connection to skip, if any. */
  datatype Broadcast = Broadcast(payload: Bytes, excluded: Option<Connection>)

  predicate Announces(kind: QMessageType) {
    kind == OpenConnection || kind == CloseConnection
  }

  /** What the dispatch demands of a record: a connection for the events
      that use one, and for announcements a payload holding a C string with
      room for the announcement (a 64-bit name in hex plus
      `" disconnected!\n"` and its NUL fit in 32 bytes). */
  predicate Dispatchable(q: QMessage)
    reads q, q.payload
  {
    && (Announces(q.kind) || q.kind == Received ==> q.connection != null)
    && (Announces(q.kind) ==> HasNul(q.payload[..]) && q.payload.Length >= 32)
  }

  /** The payload after an announcement has been formatted into it. */
  function Announced(payload: Bytes, name: bv64, kind: Formatting.MessageType): (r: Bytes)
    requires HasNul(payload) && |payload| >= 32
    requires kind.Connected? || kind.Disconnected?
    ensures |r| == |payload| && HasNul(r) && CStr(r) == Formatting.Printed(kind, name as nat, [])
  {
    Misc.AnnouncementFits(CStr(payload), name as nat, kind);
    WriteCStr(payload, Misc.FormattedIntended(CStr(payload), name as nat, kind))
  }

  /** `format_message` of an announcement into the record's payload. */
  method Announce(payload: array<u8>, name: bv64, kind: Formatting.MessageType)
    requires HasNul(payload[..]) && payload.Length >= 32
    requires kind.Connected? || kind.Disconnected?
    modifies payload
    ensures payload[..] == Announced(old(payload[..]), name, kind)
  {
    Misc.AnnouncementFits(CStr(payload[..]), name as nat, kind);
    Misc.FormatMessage(payload, name as nat, kind);
  }

  /** The OPEN branch: store the record's connection under its descriptor
      (the result of the store is ignored), format the connected
      announcement into the payload and broadcast it to everyone. What the
      directory then answers for the key is `SetThenLookup`. */
  method Open(q: QMessage, connections: Table<Connection>) returns (sent: Broadcast)
    requires connections.Valid() && connections.size > 0
    requires q.connection != null && HasNul(q.payload[..]) && q.payload.Length >= 32
    modifies connections.storage, q.payload
    ensures connections.Valid()
    ensures var c: Connection := q.connection;
            && connections.storage[..] == SetSlots(old(connections.storage[..]), FdKey(c.fd), Some(c)).1
            && q.payload[..] == Announced(old(q.payload[..]), c.name, Formatting.Connected)
            && sent == Broadcast(q.payload[..], None)
            && unchanged(c)
  {
    var c: Connection := q.connection;
    ghost var p0 := q.payload[..];
    var _ := connections.Set(FdKey(c.fd), Some(c));
    ghost var s1 := connections.storage[..];
    Announce(q.payload, c.name, Formatting.Connected);
    sent := Broadcast(q.payload[..], None);
    assert connections.storage[..] == s1 && q.connection == c;
    assert q.payload[..] == Announced(p0, c.name, Formatting.Connected);
  }

  /** The CLOSE branch: clear the descriptor's value (its key stays; what
      the directory then answers for it is `ClearThenLookup`), broadcast the
      disconnected announcement, then zero the connection (the `free` that
      follows is not modelled). */
  method Close(q: QMessage, connections: Table<Connection>) returns (sent: Broadcast)
    requires connections.Valid() && connections.size > 0
    requires q.connection != null && HasNul(q.payload[..]) && q.payload.Length >= 32
    modifies connections.storage, q.payload, q.connection
    ensures connections.Valid()
    ensures var c: Connection := q.connection;
            && connections.storage[..] == SetSlots(old(connections.storage[..]), FdKey(old(c.fd)), None).1
            && q.payload[..] == Announced(old(q.payload[..]), old(c.name), Formatting.Disconnected)
            && sent == Broadcast(q.payload[..], None)
            && c.IsEmpty()
  {
    var c: Connection := q.connection;
    ghost var s0, p0, name0 := connections.storage[..], q.payload[..], c.name;
    var key := FdKey(c.fd);
    var _ := connections.Clear(key);
    Announce(q.payload, c.name, Formatting.Disconnected);
    sent := Broadcast(q.payload[..], None);
    ghost var s1, p1 := connections.storage[..], q.payload[..];
    assert s1 == SetSlots(s0, key, None).1;
    assert p1 == Announced(p0, name0, Formatting.Disconnected);
    c.Empty();
    assert connections.storage[..] == s1 && q.payload[..] == p1 && q.connection == c;
  }

  /** As written, `handle_connection` empties the connection before the
      server handles its CLOSE record, and `Close` formats the name the
      record then holds: every disconnect line names connection 0. */
  lemma DisconnectNamesZero(payload: Bytes, c: Connection)
    requires HasNul(payload) && |payload| >= 32
    requires c.IsEmpty()
    ensures CStr(Announced(payload, c.name, Formatting.Disconnected)) == Ascii("0 disconnected!\n")
  {
    var a := Announced(payload, c.name, Formatting.Disconnected);
    assert c.name as nat == 0;
    assert CStr(a) == Formatting.Printed(Formatting.Disconnected, 0, []);
    Formatting.DisconnectedOfZero();
  }

  /** When the connection still holds its own name, the disconnect line
      names that client: two lines agree only for the same name. */
  lemma DisconnectNamesClient(p: Bytes, m: bv64, q: Bytes, n: bv64)
    requires HasNul(p) && |p| >= 32 && HasNul(q) && |q| >= 32
    requires CStr(Announced(p, m, Formatting.Disconnected)) == CStr(Announced(q, n, Formatting.Disconnected))
    ensures m == n
  {
    var a, b := Announced(p, m, Formatting.Disconnected), Announced(q, n, Formatting.Disconnected);
    assert CStr(a) == Formatting.Printed(Formatting.Disconnected, m as nat, []);
    assert CStr(b) == Formatting.Printed(Formatting.Disconnected, n as nat, []);
    Formatting.PrintedDeterminesName(Formatting.Disconnected, m as nat, [], n as nat, []);
    assert m as nat == n as nat;
    assert m == (m as nat) as bv64 == (n as nat) as bv64 == n;
  }

  /** `server_handle_queue`: OPEN and CLOSE as above; RECEIVED broadcasts
      the payload as it is, skipping the sender; every other type,
      including STRIKE and BAN, does nothing. */
  method HandleQueue(q: QMessage, connections: Table<Connection>) returns (sent: Option<Broadcast>)
    requires connections.Valid() && connections.size > 0
    requires Dispatchable(q)
    modifies connections.storage, q.payload, q.connection
    ensures connections.Valid()
    ensures match q.kind
      case OpenConnection =>
        var c: Connection := q.connection;
        && connections.storage[..] == SetSlots(old(connections.storage[..]), FdKey(c.fd), Some(c)).1
        && q.payload[..] == Announced(old(q.payload[..]), c.name, Formatting.Connected)
        && sent == Some(Broadcast(q.payload[..], None))
        && unchanged(c)
      case CloseConnection =>
        var c: Connection := q.connection;
        && connections.storage[..] == SetSlots(old(connections.storage[..]), FdKey(old(c.fd)), None).1
        && q.payload[..] == Announced(old(q.payload[..]), old(c.name), Formatting.Disconnected)
        && sent == Some(Broadcast(q.payload[..], None))
        && c.IsEmpty()
      case Received =>
        && unchanged(connections.storage, q.payload, q.connection)
        && sent == Some(Broadcast(q.payload[..], Some(q.connection)))
      case _ =>
        && unchanged(connections.storage, q.payload)
        && (q.connection != null ==> unchanged(q.connection))
        && sent == None
  {
    if q.kind == OpenConnection {
      var b := Open(q, connections);
      sent := Some(b);
    } else if q.kind == CloseConnection {
      var b := Close(q, connections);
      sent := Some(b);
    } else if q.kind == Received {
      sent := Some(Broadcast(q.payload[..], Some(q.connection)));
    } else {
      sent := None;
    }
  }
}
