/** A client or listening endpoint: socket descriptor, IPv4 address, port,
    and the 64-bit name derived from address and port that identifies the
    client in chat lines. */
module Connections {
  import opened Common

  const CONNECTION_MASK: bv64 := 0x4C5A3F2C1B8D

  /** `((u64) address << 16) + port`, then XOR with the mask. */
  function Name(address: bv32, port: bv16): (name: bv64) {
    ((address as bv64 << 16) + port as bv64) ^ CONNECTION_MASK
  }

  /** The sum never carries into bit 48, so the port sits in the low 16
      bits of the unmasked name... */
  lemma NamePort(address: bv32, port: bv16)
    ensures (Name(address, port) ^ CONNECTION_MASK) & 0xFFFF == port as bv64
  {
  }

  /** ...and the address in the 32 bits above it. */
  lemma NameAddress(address: bv32, port: bv16)
    ensures (Name(address, port) ^ CONNECTION_MASK) >> 16 == address as bv64
  {
  }

  /** Distinct endpoints get distinct names. */
  lemma NameInjective(a1: bv32, p1: bv16, a2: bv32, p2: bv16)
    requires Name(a1, p1) == Name(a2, p2)
    ensures a1 == a2 && p1 == p2
  {
    NamePort(a1, p1);
    NamePort(a2, p2);
    NameAddress(a1, p1);
    NameAddress(a2, p2);
  }

  /** `Connection`: the fields `populate_connection` fills and
      `empty_connection` zeroes. */
  class Connection {
    var fd: int32
    var address: bv32
    var port: bv16
    var name: bv64

    /** A record that has been filled in: its name matches its endpoint. */
    predicate Named()
      reads this
    {
      name == Name(address, port)
    }

    predicate IsEmpty()
      reads this
    {
      fd == 0 && address == 0 && port == 0 && name == 0
    }

    /** A record as `malloc` hands it out, with whatever the memory held. */
    constructor (fd: int32, address: bv32, port: bv16, name: bv64)
      ensures this.fd == fd && this.address == address && this.port == port && this.name == name
    {
      this.fd := fd;
      this.address := address;
      this.port := port;
      this.name := name;
    }

    /** `populate_connection`: the endpoint verbatim, and its name. */
    method Populate(fd: int32, address: bv32, port: bv16)
      modifies this
      ensures this.fd == fd && this.address == address && this.port == port
      ensures Named() && name == Name(address, port)
    {
      this.fd := fd;
      this.address := address;
      this.port := port;
      this.name := Name(address, port);
    }

    /** `empty_connection`: all four fields become zero. */
    method Empty()
      modifies this
      ensures IsEmpty()
    {
      fd := 0;
      address := 0;
      port := 0;
      name := 0;
    }

    /** `close_connection`: closes the descriptor, then empties the record. */
    method Close()
      modifies this
      ensures IsEmpty()
    {
      Empty();
    }
  }

  /** An emptied record is not a filled-in one: zero is never the name of
      the zero endpoint. */
  lemma EmptiedIsNotNamed(c: Connection)
    requires c.IsEmpty()
    ensures !c.Named()
  {
  }
}
