/** The bytes of a log entry: a two-byte operation code, most significant byte first, and the payload. */
module LogEntry {
  import opened Text

  type Byte = x: int | 0 <= x < 0x100
  type Opcode = x: int | 0 <= x < 0x1_0000

  datatype Entry = Entry(opt: Opcode, data: seq<Byte>)

  function Framed(e: Entry): seq<Byte> {
    [e.opt / 0x100, e.opt % 0x100] + e.data
  }

  /** What a replica reads; None is the index out of range on fewer than two bytes. */
  function Read(bytes: seq<Byte>): Option<Entry> {
    if |bytes| < 2 then None else (var hi: int, lo: int := bytes[0], bytes[1]; Some(Entry(hi * 0x100 + lo, bytes[2..])))
  }

  method Encode(e: Entry) returns (buf: seq<Byte>)
    ensures Read(buf) == Some(e)
    ensures buf == Framed(e)
  {
    buf := [];
    buf := buf + [e.opt / 0x100, e.opt % 0x100];
    buf := buf + e.data;
  }

  /** Reading inverts framing on every entry, and framing inverts reading on every text that can be read. */
  lemma FramingRoundTrip(e: Entry, bytes: seq<Byte>)
    ensures Read(Framed(e)) == Some(e)
    ensures Read(bytes) == Some(e) <==> bytes == Framed(e)
    ensures Read(bytes) == None <==> |bytes| < 2
  {
    if Read(bytes) == Some(e) {
      assert e.opt / 0x100 == bytes[0] && e.opt % 0x100 == bytes[1];
      assert bytes == [bytes[0], bytes[1]] + bytes[2..];
    }
  }
}
