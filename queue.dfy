/** The event records handlers pass to the server, the queue handle with its
    access mode, and the fixed byte layout of a record on the queue. */
module Queues {
  import opened Common
  import opened Connections

  /** `QMessageType`, in declaration order. */
  datatype QMessageType =
    | NotSpecified | StartListening | OpenConnection | CloseConnection
    | Received | Strike | Ban | StopListening

  /** The enum's integer value. */
  function Code(t: QMessageType): (c: nat)
    ensures c < 8
  {
    match t
    case NotSpecified => 0
    case StartListening => 1
    case OpenConnection => 2
    case CloseConnection => 3
    case Received => 4
    case Strike => 5
    case Ban => 6
    case StopListening => 7
  }

  /** The event an integer read off the queue denotes, if any. */
  function TypeOf(c: nat): (t: Option<QMessageType>)
    ensures t.Some? <==> c < 8
    ensures t.Some? ==> Code(t.value) == c
  {
    if c == 0 then Some(NotSpecified)
    else if c == 1 then Some(StartListening)
    else if c == 2 then Some(OpenConnection)
    else if c == 3 then Some(CloseConnection)
    else if c == 4 then Some(Received)
    else if c == 5 then Some(Strike)
    else if c == 6 then Some(Ban)
    else if c == 7 then Some(StopListening)
    else None
  }

  lemma CodeRoundTrip(t: QMessageType)
    ensures TypeOf(Code(t)) == Some(t)
  {
  }

  /** `QueueType`. */
  datatype QueueType = ModeRead | ModeWrite | ModeReadWrite

  const O_RDONLY: int32 := 0
  const O_WRONLY: int32 := 1
  const O_RDWR: int32 := 2

  /** The `mq_open` access mode `init_queue` picks: read-only for a reading
      end, write-only for a writing end, read-write otherwise. */
  function OpenMode(t: QueueType): (mode: int32)
    ensures mode == O_RDONLY <==> t == ModeRead
    ensures mode == O_WRONLY <==> t == ModeWrite
    ensures mode == O_RDWR <==> t == ModeReadWrite
  {
    match t
    case ModeRead => O_RDONLY
    case ModeWrite => O_WRONLY
    case ModeReadWrite => O_RDWR
  }

  // ---------------------------------------------------------------------
  // Frame layout

  const TWO_TO_THE_32: nat := 0x1_0000_0000

  /** `sizeof(QMessageType)`. */
  const TYPE_SIZE: nat := 4
  /** `sizeof(Connection)`: `fd`, `address`, `port`, padding, `name`. */
  const CONNECTION_SIZE: nat := 24
  /** The width of the `connection` pointer the frame actually carries. */
  const ADDRESS_SIZE: nat := 8

  function Pow256(k: nat): nat {
    if k == 0 then 1 else 256 * Pow256(k - 1)
  }

  lemma Pow256Values()
    ensures Pow256(4) == TWO_TO_THE_32 && Pow256(8) == TWO_TO_THE_64
  {
    assert Pow256(2) == 0x1_0000;
    assert Pow256(4) == TWO_TO_THE_32 by { assert Pow256(3) == 0x100_0000; }
    assert Pow256(6) == 0x1_0000_0000_0000 by { assert Pow256(5) == 0x100_0000_0000; }
    assert Pow256(8) == TWO_TO_THE_64 by { assert Pow256(7) == 0x100_0000_0000_0000; }
  }

  /** The `k` bytes of `n` in memory on a little-endian machine. */
  function LittleEndian(n: nat, k: nat): (r: Bytes)
    ensures |r| == k
  {
    if k == 0 then [] else [(n % 256) as u8] + LittleEndian(n / 256, k - 1)
  }

  /** The number `k` little-endian bytes hold. */
  function FromLittleEndian(b: Bytes): (n: nat)
    ensures n < Pow256(|b|)
  {
    if b == [] then 0 else b[0] as nat + 256 * FromLittleEndian(b[1..])
  }

  lemma {:induction false} LittleEndianRoundTrip(n: nat, k: nat)
    requires n < Pow256(k)
    ensures FromLittleEndian(LittleEndian(n, k)) == n
    decreases k
  {
    if k > 0 {
      LittleEndianRoundTrip(n / 256, k - 1);
      assert LittleEndian(n, k)[1..] == LittleEndian(n / 256, k - 1);
    }
  }

  /** A record as it travels: the type's integer value, the connection
      pointer as a 64-bit address, and the payload bytes. */
  datatype WireMessage = WireMessage(code: nat, connection: nat, payload: Bytes)

  /** What the layout can carry: a 32-bit type, a 64-bit pointer, and a
      payload long enough to hold the 16 bytes the connection copy reads
      past the pointer. */
  predicate Encodable(m: WireMessage) {
    m.code < TWO_TO_THE_32 && m.connection < TWO_TO_THE_64
    && |m.payload| >= CONNECTION_SIZE - ADDRESS_SIZE
  }

  /** `queue_message_size` in `create_queues` and `send_queue`. */
  function FrameSize(payloadSize: nat): nat {
    TYPE_SIZE + CONNECTION_SIZE + payloadSize + 1
  }

  /** The buffer `send_queue` hands to `mq_send`: the type at offset 0; at
      `TYPE_SIZE` the `sizeof(Connection)` bytes starting at the pointer
      field, which are the pointer and the first 16 payload bytes; the
      payload at `TYPE_SIZE + CONNECTION_SIZE`; and a last byte the code
      never writes, whose value is `trailing`. */
  function Encode(m: WireMessage, trailing: u8): (frame: Bytes)
    requires Encodable(m)
    ensures |frame| == FrameSize(|m.payload|)
    ensures frame[..TYPE_SIZE] == LittleEndian(m.code, TYPE_SIZE)
    ensures frame[TYPE_SIZE..TYPE_SIZE + ADDRESS_SIZE] == LittleEndian(m.connection, ADDRESS_SIZE)
    ensures frame[TYPE_SIZE + CONNECTION_SIZE..TYPE_SIZE + CONNECTION_SIZE + |m.payload|] == m.payload
  {
    var spill := m.payload[..CONNECTION_SIZE - ADDRESS_SIZE];
    var frame := LittleEndian(m.code, TYPE_SIZE) + LittleEndian(m.connection, ADDRESS_SIZE) + spill + m.payload + [trailing];
    assert frame[..TYPE_SIZE] == LittleEndian(m.code, TYPE_SIZE);
    assert frame[TYPE_SIZE..TYPE_SIZE + ADDRESS_SIZE] == LittleEndian(m.connection, ADDRESS_SIZE);
    assert frame[TYPE_SIZE + CONNECTION_SIZE..TYPE_SIZE + CONNECTION_SIZE + |m.payload|] == m.payload;
    frame
  }

  /** What `read_queue` copies out of a received buffer into a record whose
      payload holds `payloadSize` bytes. The 16 bytes after the pointer land
      in the payload and are then overwritten by the payload copy. */
  function Decode(frame: Bytes, payloadSize: nat): (m: WireMessage)
    requires |frame| >= TYPE_SIZE + CONNECTION_SIZE + payloadSize
    ensures |m.payload| == payloadSize
    ensures m.code < TWO_TO_THE_32 && m.connection < TWO_TO_THE_64
  {
    Pow256Values();
    WireMessage(
      FromLittleEndian(frame[..TYPE_SIZE]),
      FromLittleEndian(frame[TYPE_SIZE..TYPE_SIZE + ADDRESS_SIZE]),
      frame[TYPE_SIZE + CONNECTION_SIZE..TYPE_SIZE + CONNECTION_SIZE + payloadSize])
  }

  /** The read offsets mirror the write offsets: decoding a frame that
      `send_queue` built gives back the type, the pointer and the payload,
      whatever the unwritten last byte holds. */
  lemma DecodeEncode(m: WireMessage, trailing: u8)
    requires Encodable(m)
    ensures Decode(Encode(m, trailing), |m.payload|) == m
  {
    Pow256Values();
    LittleEndianRoundTrip(m.code, TYPE_SIZE);
    LittleEndianRoundTrip(m.connection, ADDRESS_SIZE);
  }

  /** Different records of one payload size never produce the same frame. */
  lemma EncodeInjective(m1: WireMessage, m2: WireMessage, t1: u8, t2: u8)
    requires Encodable(m1) && Encodable(m2) && |m1.payload| == |m2.payload|
    requires Encode(m1, t1) == Encode(m2, t2)
    ensures m1 == m2
  {
    DecodeEncode(m1, t1);
    DecodeEncode(m2, t2);
  }

  // ---------------------------------------------------------------------
  // Queue handle and event record

  /** `Queue`: the access mode and the descriptor `mq_open` returned. */
  class Queue {
    var kind: QueueType
    var mqd: int32

    constructor (kind: QueueType, mqd: int32)
      ensures this.kind == kind && this.mqd == mqd
    {
      this.kind := kind;
      this.mqd := mqd;
    }

    /** `populate_queue`: sets the mode and the descriptor, nothing else. */
    method Populate(kind: QueueType, mqd: int32)
      modifies this
      ensures this.kind == kind && this.mqd == mqd
    {
      this.kind := kind;
      this.mqd := mqd;
    }

    /** `send_queue`: a read-only end refuses and hands nothing over;
        otherwise the frame is handed to `mq_send`, whose verdict
        (`accepted`) is the result. */
    method Send(m: WireMessage, trailing: u8, accepted: bool) returns (ok: bool, handed: Option<Bytes>)
      requires Encodable(m)
      ensures kind == ModeRead ==> !ok && handed == None
      ensures kind != ModeRead ==> ok == accepted && handed == Some(Encode(m, trailing))
      ensures handed.Some? ==> |handed.value| == FrameSize(|m.payload|)
    {
      if kind == ModeRead {
        return false, None;
      }
      var frame := Encode(m, trailing);
      return accepted, Some(frame);
    }

    /** `read_queue`: a write-only end refuses and leaves `message` as it
        was; so does a failed `mq_receive` (`received == None`); otherwise
        the record is overwritten with the decoded frame. */
    method Read(message: WireMessage, received: Option<Bytes>) returns (ok: bool, r: WireMessage)
      requires received.Some? ==> |received.value| >= TYPE_SIZE + CONNECTION_SIZE + |message.payload|
      ensures ok <==> kind != ModeWrite && received.Some?
      ensures !ok ==> r == message
      ensures ok ==> r == Decode(received.value, |message.payload|)
      ensures |r.payload| == |message.payload|
    {
      if kind == ModeWrite {
        return false, message;
      }
      if received.None? {
        return false, message;
      }
      return true, Decode(received.value, |message.payload|);
    }
  }

  /** `init_queue`: the mode goes to `mq_open`, whose descriptor is
      `descriptor` (-1 on failure); `granted` says whether `malloc` granted
      the handle. NULL on either failure. */
  method InitQueue(kind: QueueType, descriptor: int32, granted: bool) returns (mode: int32, q: Queue?)
    ensures mode == OpenMode(kind)
    ensures q == null <==> descriptor == -1 || !granted
    ensures q != null ==> fresh(q) && q.kind == kind && q.mqd == descriptor
  {
    mode := OpenMode(kind);
    if descriptor == -1 {
      return mode, null;
    }
    if !granted {
      return mode, null;
    }
    q := new Queue(kind, descriptor);
  }

  /** A frame sent on a writing end and received on a reading end arrives
      as it was sent. */
  method Relay(writer: Queue, reader: Queue, m: WireMessage, trailing: u8, stale: WireMessage)
      returns (delivered: bool, r: WireMessage)
    requires writer.kind == ModeWrite && reader.kind == ModeRead
    requires Encodable(m) && |stale.payload| == |m.payload|
    ensures delivered && r == m
  {
    var sent, frame := writer.Send(m, trailing, true);
    delivered, r := reader.Read(stale, frame);
    DecodeEncode(m, trailing);
  }

  /** `QMessage`: the event type, the connection it concerns, and the
      payload array embedded in the record. */
  class QMessage {
    var kind: QMessageType
    var connection: Connection?
    const payload: array<u8>

    /** A record on the stack before anything is written to it: whatever
        the memory held. */
    constructor (kind: QMessageType, connection: Connection?, contents: Bytes)
      ensures this.kind == kind && this.connection == connection
      ensures fresh(payload) && payload[..] == contents
    {
      this.kind := kind;
      this.connection := connection;
      payload := new u8[|contents|](i requires 0 <= i < |contents| => contents[i]);
    }

    /** `populate_message`: sets the type and the connection; with a source
        buffer, copies exactly the payload's length of bytes from it, and
        without one leaves the payload alone. */
    method Populate(kind: QMessageType, connection: Connection?, source: Option<Bytes>)
      requires source.Some? ==> |source.value| >= payload.Length
      modifies this, payload
      ensures this.kind == kind && this.connection == connection
      ensures source.Some? ==> payload[..] == source.value[..payload.Length]
      ensures source.None? ==> payload[..] == old(payload[..])
    {
      this.kind := kind;
      this.connection := connection;
      if source.Some? {
        forall i | 0 <= i < payload.Length {
          payload[i] := source.value[i];
        }
      }
    }
  }
}
