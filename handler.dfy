/** `handle_connection`: the per-client producer. It announces the client,
    relays every successful read as a sanitised payload, then closes the
    client and announces that. Socket reads arrive as a sequence: the
    handler sees each element as one successful `read_connection`, and the
    end of the sequence as the first failed one. */
module Handler {
  import opened Common
  import opened Connections
  import opened Queues
  import Formatting
  import Misc

  /** One record handed to `send_queue`: its type, its connection and a
      snapshot of its payload. */
  datatype Event = Event(kind: QMessageType, connection: Connection, payload: Bytes)

  /** The payload of the RECEIVED record for one read of `read`: the
      first `payloadSize` bytes of the zeroed buffer after the read and the
      sanitising pass over its first `bufferSize` bytes. */
  function ReceivedPayload(read: Bytes, bufferSize: nat, formattingSize: nat, payloadSize: nat): (r: Bytes)
    requires |read| < bufferSize && payloadSize <= bufferSize + formattingSize
    ensures |r| == payloadSize
  {
    (Formatting.Sanitized(Misc.ALLOWED_SYMBOLS, read + Zeros(bufferSize - |read|)) + Zeros(formattingSize))[..payloadSize]
  }

  /** Whatever was read, the relayed payload holds only allowed bytes. */
  lemma ReceivedAllowed(read: Bytes, bufferSize: nat, formattingSize: nat, payloadSize: nat)
    requires |read| < bufferSize && payloadSize <= bufferSize + formattingSize
    ensures Formatting.AllAllowed(Misc.ALLOWED_SYMBOLS, ReceivedPayload(read, bufferSize, formattingSize, payloadSize))
  {
  }

  /** When the read fits in the payload, the text the server will
      broadcast is the read's allowed bytes up to the first NUL among them;
      for a read with no NUL it is exactly the read's allowed bytes, in
      order. */
  lemma ReceivedText(read: Bytes, bufferSize: nat, formattingSize: nat, payloadSize: nat)
    requires |read| < bufferSize && payloadSize <= bufferSize + formattingSize
    requires |read| < payloadSize
    ensures var p := ReceivedPayload(read, bufferSize, formattingSize, payloadSize);
            var k := Formatting.Kept(Misc.ALLOWED_SYMBOLS, read);
            HasNul(p) && HasNul(k + [0]) && CStr(p) == CStr(k + [0])
    ensures 0 !in read ==>
              var p := ReceivedPayload(read, bufferSize, formattingSize, payloadSize);
              HasNul(p) && CStr(p) == Formatting.Kept(Misc.ALLOWED_SYMBOLS, read)
  {
    var k := Formatting.Kept(Misc.ALLOWED_SYMBOLS, read);
    var p := ReceivedPayload(read, bufferSize, formattingSize, payloadSize);
    PayloadStartsWithKept(read, bufferSize, formattingSize, payloadSize);
    CStrOfExtension(p, k);
    if 0 !in read {
      Formatting.KeptMembers(Misc.ALLOWED_SYMBOLS, read, 0);
      StrLenOfPrefix(k + [0], k);
    }
  }

  /** The payload is the read's allowed bytes followed by zeros, cut to
      `payloadSize`. */
  lemma PayloadOfKept(read: Bytes, bufferSize: nat, formattingSize: nat, payloadSize: nat)
    requires |read| < bufferSize && payloadSize <= bufferSize + formattingSize
    ensures var k := Formatting.Kept(Misc.ALLOWED_SYMBOLS, read);
            ReceivedPayload(read, bufferSize, formattingSize, payloadSize)
              == (k + Zeros(bufferSize - |k|) + Zeros(formattingSize))[..payloadSize]
  {
    Formatting.SanitizedOfPadded(Misc.ALLOWED_SYMBOLS, read, bufferSize - |read|);
  }

  /** For a read shorter than the payload, the payload starts with the
      read's allowed bytes and a NUL right after them. */
  lemma PayloadStartsWithKept(read: Bytes, bufferSize: nat, formattingSize: nat, payloadSize: nat)
    requires |read| < bufferSize && payloadSize <= bufferSize + formattingSize
    requires |read| < payloadSize
    ensures var p := ReceivedPayload(read, bufferSize, formattingSize, payloadSize);
            var k := Formatting.Kept(Misc.ALLOWED_SYMBOLS, read);
            |k| < |p| && p[..|k|] == k && p[|k|] == 0
  {
    var k := Formatting.Kept(Misc.ALLOWED_SYMBOLS, read);
    var z := Zeros(bufferSize - |k|);
    var q := k + z + Zeros(formattingSize);
    var p := ReceivedPayload(read, bufferSize, formattingSize, payloadSize);
    PayloadOfKept(read, bufferSize, formattingSize, payloadSize);
    assert p == q[..payloadSize];
    assert q[..|k|] == k;
    assert q[|k|] == z[0] == 0;
  }

  /** A NUL and then an allowed byte both survive sanitising. */
  lemma KeptOfNulFirst(read: Bytes)
    requires |read| >= 2 && read[0] == 0 && Misc.Allowed(read[1])
    ensures var k := Formatting.Kept(Misc.ALLOWED_SYMBOLS, read);
            |k| >= 2 && k[0] == 0 && k[1] == read[1]
  {
    Misc.AllowedCharacters(0);
    assert read == [read[0]] + [read[1]] + read[2..];
    Formatting.KeptAppend(Misc.ALLOWED_SYMBOLS, [read[0]] + [read[1]], read[2..]);
    Formatting.KeptAppend(Misc.ALLOWED_SYMBOLS, [read[0]], [read[1]]);
    Formatting.KeptSingle(Misc.ALLOWED_SYMBOLS, read[0]);
    Formatting.KeptSingle(Misc.ALLOWED_SYMBOLS, read[1]);
  }

  /** A read that starts with NUL and then an allowed byte leaves a payload
      whose text is empty and whose byte 1 is not NUL: `format_message` on
      it, as written, writes its newline outside its temporary buffer. */
  lemma NulFirstReadOverruns(read: Bytes, bufferSize: nat, formattingSize: nat, payloadSize: nat)
    requires |read| < bufferSize && 2 <= payloadSize <= bufferSize + formattingSize
    requires payloadSize < TWO_TO_THE_64 && formattingSize < TWO_TO_THE_64
    requires |read| >= 2 && read[0] == 0 && read[1] != 0 && Misc.Allowed(read[1])
    ensures var p := ReceivedPayload(read, bufferSize, formattingSize, payloadSize);
            && HasNul(p) && StrLen(p) == 0 && p[1] == read[1]
            && Misc.FixupOverruns(p, formattingSize)
  {
    var k := Formatting.Kept(Misc.ALLOWED_SYMBOLS, read);
    var p := ReceivedPayload(read, bufferSize, formattingSize, payloadSize);
    KeptOfNulFirst(read);
    PayloadOfKept(read, bufferSize, formattingSize, payloadSize);
    assert p[0] == k[0] && p[1] == k[1];
    StrLenOfPrefix(p, []);
    Misc.FixupOverrunsIff(p, formattingSize);
  }

  /** The shape of one handler's output: OPEN first, CLOSE last, RECEIVED
      in between, all for the same connection. */
  predicate ProducerTrace(events: seq<Event>, c: Connection) {
    && |events| >= 2
    && events[0].kind == OpenConnection
    && events[|events| - 1].kind == CloseConnection
    && (forall i :: 0 < i < |events| - 1 ==> events[i].kind == Received)
    && (forall i :: 0 <= i < |events| ==> events[i].connection == c)
  }

  /** A producer trace holds exactly one OPEN and one CLOSE, and never a
      STRIKE or a BAN. */
  lemma ProducerTraceKinds(events: seq<Event>, c: Connection)
    requires ProducerTrace(events, c)
    ensures forall i :: 0 <= i < |events| ==> (events[i].kind == OpenConnection <==> i == 0)
    ensures forall i :: 0 <= i < |events| ==> (events[i].kind == CloseConnection <==> i == |events| - 1)
    ensures forall i :: 0 <= i < |events| ==> events[i].kind != Strike && events[i].kind != Ban
  {
    forall i | 0 <= i < |events|
      ensures events[i].kind == OpenConnection <==> i == 0
      ensures events[i].kind == CloseConnection <==> i == |events| - 1
      ensures events[i].kind != Strike && events[i].kind != Ban
    {
      if 0 < i < |events| - 1 {
        assert events[i].kind == Received;
      }
    }
  }

  /** `read_connection` into the zeroed buffer, then `sanitize_message`
      over its first `bufferSize` bytes. */
  method LoadRead(read: Bytes, buffer: array<u8>, bufferSize: nat)
    requires 0 < |read| < bufferSize <= buffer.Length
    requires buffer[..] == Zeros(buffer.Length)
    modifies buffer
    ensures buffer[..] == Formatting.Sanitized(Misc.ALLOWED_SYMBOLS, read + Zeros(bufferSize - |read|))
                            + Zeros(buffer.Length - bufferSize)
  {
    forall k | 0 <= k < |read| {
      buffer[k] := read[k];
    }
    assert buffer[..bufferSize] == read + Zeros(bufferSize - |read|);
    assert buffer[bufferSize..] == Zeros(buffer.Length - bufferSize);
    var _ := Misc.SanitizeMessage(buffer, bufferSize);
  }

  /** One turn of the read loop, after a read of `read` into the zeroed
      buffer: sanitise the first `bufferSize` bytes, copy the payload out,
      fill in the RECEIVED record, and zero the first `bufferSize` bytes
      again. */
  method RelayRead(c: Connection, read: Bytes, buffer: array<u8>, bufferSize: nat, message: QMessage)
    requires 0 < |read| < bufferSize <= buffer.Length && message.payload.Length <= buffer.Length
    requires buffer[..] == Zeros(buffer.Length) && buffer != message.payload
    modifies buffer, message, message.payload
    ensures buffer[..] == Zeros(buffer.Length)
    ensures message.kind == Received && message.connection == c
    ensures message.payload[..] ==
      ReceivedPayload(read, bufferSize, buffer.Length - bufferSize, message.payload.Length)
  {
    LoadRead(read, buffer, bufferSize);
    ghost var relayed := buffer[..];
    forall k | 0 <= k < message.payload.Length {
      message.payload[k] := buffer[k];
    }
    message.Populate(Received, c, Some(buffer[..]));
    assert message.payload[..] == relayed[..message.payload.Length];
    forall k | 0 <= k < bufferSize {
      buffer[k] := 0;
    }
    assert buffer[..] == Zeros(buffer.Length);
  }

  /** The RECEIVED records a run of reads produces, in order. */
  function ReceivedEvents(c: Connection, inputs: seq<Bytes>, bufferSize: nat, formattingSize: nat, payloadSize: nat): (r: seq<Event>)
    requires forall i :: 0 <= i < |inputs| ==> |inputs[i]| < bufferSize
    requires payloadSize <= bufferSize + formattingSize
    ensures |r| == |inputs|
    ensures forall j :: 0 <= j < |r| ==> r[j].kind == Received && r[j].connection == c
  {
    if inputs == [] then []
    else
      ReceivedEvents(c, inputs[..|inputs| - 1], bufferSize, formattingSize, payloadSize)
        + [Event(Received, c, ReceivedPayload(inputs[|inputs| - 1], bufferSize, formattingSize, payloadSize))]
  }

  /** The `j`-th record relays the `j`-th read. */
  lemma {:induction false} ReceivedEventsAt(c: Connection, inputs: seq<Bytes>, bufferSize: nat, formattingSize: nat, payloadSize: nat, j: nat)
    requires forall i :: 0 <= i < |inputs| ==> |inputs[i]| < bufferSize
    requires payloadSize <= bufferSize + formattingSize
    requires j < |inputs|
    ensures ReceivedEvents(c, inputs, bufferSize, formattingSize, payloadSize)[j].payload
              == ReceivedPayload(inputs[j], bufferSize, formattingSize, payloadSize)
  {
    var n := |inputs| - 1;
    if j < n {
      ReceivedEventsAt(c, inputs[..n], bufferSize, formattingSize, payloadSize, j);
    }
  }

  /** One more read appends one record. */
  lemma ReceivedEventsSnoc(c: Connection, inputs: seq<Bytes>, bufferSize: nat, formattingSize: nat, payloadSize: nat, i: nat)
    requires forall k :: 0 <= k < |inputs| ==> |inputs[k]| < bufferSize
    requires payloadSize <= bufferSize + formattingSize
    requires i < |inputs|
    ensures ReceivedEvents(c, inputs[..i + 1], bufferSize, formattingSize, payloadSize)
              == ReceivedEvents(c, inputs[..i], bufferSize, formattingSize, payloadSize)
                   + [Event(Received, c, ReceivedPayload(inputs[i], bufferSize, formattingSize, payloadSize))]
  {
    assert inputs[..i + 1][..i] == inputs[..i];
  }

  /** An OPEN record, RECEIVED records and a CLOSE record, all for `c`,
      make a producer trace in that order. */
  lemma TraceOfParts(open: Event, received: seq<Event>, close: Event, c: Connection)
    requires open.kind == OpenConnection && open.connection == c
    requires close.kind == CloseConnection && close.connection == c
    requires forall j :: 0 <= j < |received| ==> received[j].kind == Received && received[j].connection == c
    ensures ProducerTrace([open] + received + [close], c)
  {
    var events := [open] + received + [close];
    assert forall i :: 0 < i < |events| - 1 ==> events[i] == received[i - 1];
  }

  /** When the last read starts with NUL and then an allowed byte, the
      payload of the last RECEIVED record, which `HandleConnection` repeats
      in the CLOSE record, makes `format_message` overrun. */
  lemma CloseRepeatsOverrun(c: Connection, inputs: seq<Bytes>, bufferSize: nat, formattingSize: nat, payloadSize: nat)
    requires forall i :: 0 <= i < |inputs| ==> |inputs[i]| < bufferSize
    requires 2 <= payloadSize <= bufferSize + formattingSize
    requires payloadSize < TWO_TO_THE_64 && formattingSize < TWO_TO_THE_64
    requires inputs != []
    requires var last := inputs[|inputs| - 1];
             |last| >= 2 && last[0] == 0 && last[1] != 0 && Misc.Allowed(last[1])
    ensures var p := ReceivedEvents(c, inputs, bufferSize, formattingSize, payloadSize)[|inputs| - 1].payload;
            && |p| == payloadSize && HasNul(p) && StrLen(p) == 0
            && Misc.FixupOverruns(p, formattingSize)
  {
    ReceivedEventsAt(c, inputs, bufferSize, formattingSize, payloadSize, |inputs| - 1);
    NulFirstReadOverruns(inputs[|inputs| - 1], bufferSize, formattingSize, payloadSize);
  }

  /** The read loop of `handle_connection`: one RECEIVED record per read,
      in order, with the buffer zeroed again after each; the record's
      payload ends up holding the last relayed payload. */
  method RelayAll(c: Connection, inputs: seq<Bytes>, buffer: array<u8>, bufferSize: nat, message: QMessage)
      returns (received: seq<Event>)
    requires forall i :: 0 <= i < |inputs| ==> 0 < |inputs[i]| < bufferSize
    requires bufferSize <= buffer.Length && message.payload.Length <= buffer.Length
    requires buffer[..] == Zeros(buffer.Length) && buffer != message.payload
    modifies buffer, message, message.payload
    ensures received == ReceivedEvents(c, inputs, bufferSize, buffer.Length - bufferSize, message.payload.Length)
    ensures message.payload[..] == if inputs == [] then old(message.payload[..]) else received[|inputs| - 1].payload
  {
    var formattingSize, payloadSize := buffer.Length - bufferSize, message.payload.Length;
    received := [];
    var i := 0;
    while i < |inputs|
      invariant 0 <= i <= |inputs|
      invariant buffer[..] == Zeros(buffer.Length)
      invariant received == ReceivedEvents(c, inputs[..i], bufferSize, formattingSize, payloadSize)
      invariant message.payload[..] == if i == 0 then old(message.payload[..]) else received[i - 1].payload
    {
      ReceivedEventsSnoc(c, inputs, bufferSize, formattingSize, payloadSize, i);
      RelayRead(c, inputs[i], buffer, bufferSize, message);
      received := received + [Event(Received, c, message.payload[..])];
      i := i + 1;
    }
    assert inputs[..i] == inputs;
  }

  /** `handle_connection` with `close_connection` reduced to closing the
      socket, so that the connection keeps its fields until the server
      empties it while handling CLOSE (server/server.c:27). The records
      are those `HandleConnection` sends; the connection keeps its name,
      so the CLOSE record names the client. */
  method HandleConnectionIntended(c: Connection, inputs: seq<Bytes>, bufferSize: nat, formattingSize: nat, stale: Bytes)
      returns (events: seq<Event>)
    requires forall i :: 0 <= i < |inputs| ==> 0 < |inputs[i]| < bufferSize
    requires |stale| <= bufferSize + formattingSize
    ensures ProducerTrace(events, c)
    ensures |events| == |inputs| + 2
    ensures events[0].payload == stale
    ensures events[1..|inputs| + 1] == ReceivedEvents(c, inputs, bufferSize, formattingSize, |stale|)
    ensures events[|inputs| + 1].payload == events[|inputs|].payload
    ensures c.name == old(c.name)
  {
    ghost var name := c.name;
    var buffer := new u8[bufferSize + formattingSize](_ => 0);
    var message := new QMessage(NotSpecified, null, stale);
    message.Populate(OpenConnection, c, None);
    var open := Event(OpenConnection, c, message.payload[..]);
    assert buffer.Length - bufferSize == formattingSize && message.payload.Length == |stale|;
    var received := RelayAll(c, inputs, buffer, bufferSize, message);
    assert c.name == name;
    assert received == ReceivedEvents(c, inputs, bufferSize, formattingSize, |stale|);
    ghost var last := message.payload[..];
    assert last == if inputs == [] then open.payload else received[|inputs| - 1].payload;
    message.Populate(CloseConnection, c, None);
    assert c.name == name;
    var close := Event(CloseConnection, c, message.payload[..]);
    assert close.payload == last;
    TraceOfParts(open, received, close, c);
    events := [open] + received + [close];
    assert events[1..|inputs| + 1] == received;
    assert events[|inputs|] == if inputs == [] then open else received[|inputs| - 1];
  }

  /** `handle_connection`. `bufferSize` and `formattingSize` are
      `MESSAGE_BUFFER_SIZE` and `MESSAGE_FORMATTING_SIZE`; `stale` is what
      the record's payload holds before anything is copied into it; each
      read returns between 1 and `bufferSize - 1` bytes. The records in
      between OPEN and CLOSE are `ReceivedEvents`, one per read.
      `close_connection` empties the connection the records refer to; it
      runs before CLOSE is filled in, which reads none of the connection's
      fields, so emptying it last gives the same records and state. */
  method HandleConnection(c: Connection, inputs: seq<Bytes>, bufferSize: nat, formattingSize: nat, stale: Bytes)
      returns (events: seq<Event>)
    requires forall i :: 0 <= i < |inputs| ==> 0 < |inputs[i]| < bufferSize
    requires |stale| <= bufferSize + formattingSize
    modifies c
    ensures ProducerTrace(events, c)
    ensures |events| == |inputs| + 2
    ensures events[0].payload == stale
    ensures events[1..|inputs| + 1] == ReceivedEvents(c, inputs, bufferSize, formattingSize, |stale|)
    ensures events[|inputs| + 1].payload == events[|inputs|].payload
    ensures c.IsEmpty()
  {
    events := HandleConnectionIntended(c, inputs, bufferSize, formattingSize, stale);
    c.Close();
  }
}
