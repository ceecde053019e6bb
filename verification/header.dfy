/** The DDP packet header codec of `ddp_receiver.py`: `build_header` writes the
    fixed 10-byte header, `_parse_header` reads the 10-byte header or, with the
    TIME flag, the 14-byte header that carries a timecode.

    Wire layout (big-endian): byte 0 flags1 (bits 7-6 version, bit 0 PUSH,
    bit 1 QUERY, bit 2 REPLY, bit 3 STORAGE, bit 4 TIME), bytes 1-2 reserved,
    byte 3 device id, bytes 4-7 offset, bytes 8-9 payload length, bytes 10-13
    timecode when TIME is set. */
module Header {
  import opened Bytes

  const HeaderLen: nat := 10
  const HeaderLenTime: nat := 14

  /** flags1 with version bits 01 and no other bit set. */
  const FlagsVer1: byte := 0x40

  const IdDisplay: byte := 1
  const IdConfig: byte := 250
  const IdStatus: byte := 251
  const IdAll: byte := 255

  /** The single-bit flags of the flags1 byte. */
  datatype Flag = Push | Query | Reply | Storage | Time

  /** `flags1 & mask` is non-zero, for the flag's one-bit mask. */
  predicate HasFlag(flags1: byte, f: Flag)
  {
    match f
    case Push => (flags1 / 0x01) % 2 == 1
    case Query => (flags1 / 0x02) % 2 == 1
    case Reply => (flags1 / 0x04) % 2 == 1
    case Storage => (flags1 / 0x08) % 2 == 1
    case Time => (flags1 / 0x10) % 2 == 1
  }

  /** `(flags1 & 0xC0) >> 6`, the 2-bit protocol version. */
  function Version(flags1: byte): nat
  {
    (flags1 / 0x40) % 4
  }

  /** The decoded header: the tuple `_parse_header` returns. `headerLen` is
      where the payload starts. */
  datatype Fields = Fields(
    flags1: byte,
    deviceId: byte,
    offset: nat,
    length: nat,
    headerLen: nat,
    timecode: Option<nat>)

  /** `build_header`: each argument is an arbitrary integer, masked to its
      field width; no timecode is ever written. */
  function BuildHeader(flags1: int, deviceId: int, offset: int, length: int): (h: seq<byte>)
    ensures |h| == HeaderLen
    ensures h[1] == 0 && h[2] == 0
    ensures h[0] == flags1 % 0x100 && h[3] == deviceId % 0x100
    ensures Be32(h[4..8]) == offset % 0x1_0000_0000
    ensures Be16(h[8..10]) == length % 0x1_0000
  {
    var h := [ ByteAt(flags1, 0), 0, 0, ByteAt(deviceId, 0),
      ByteAt(offset, 3), ByteAt(offset, 2), ByteAt(offset, 1), ByteAt(offset, 0),
      ByteAt(length, 1), ByteAt(length, 0) ];
    Be32Split(offset);
    Be16Split(length);
    assert h[4..8] == [ByteAt(offset, 3), ByteAt(offset, 2), ByteAt(offset, 1), ByteAt(offset, 0)];
    assert h[8..10] == [ByteAt(length, 1), ByteAt(length, 0)];
    h
  }

  /** The three ways a datagram fails to carry a DDP header. */
  predicate Malformed(packet: seq<byte>)
  {
    || |packet| < HeaderLen
    || Version(packet[0]) != 1
    || (HasFlag(packet[0], Time) && |packet| < HeaderLenTime)
  }

  /** `_parse_header`: `None` exactly on a malformed datagram; the reserved
      bytes 1-2 are not checked. */
  function ParseHeader(packet: seq<byte>): (r: Option<Fields>)
    ensures r.None? <==> Malformed(packet)
    ensures r.Some? ==>
      && r.value.flags1 == packet[0]
      && r.value.deviceId == packet[3]
      && r.value.offset == Be32(packet[4..8])
      && r.value.length == Be16(packet[8..10])
    ensures r.Some? && HasFlag(packet[0], Time) ==>
      && r.value.headerLen == HeaderLenTime
      && r.value.timecode == Some(Be32(packet[10..14]))
    ensures r.Some? && !HasFlag(packet[0], Time) ==>
      r.value.headerLen == HeaderLen && r.value.timecode == None
    ensures r.Some? ==> r.value.headerLen <= |packet|
  {
    if |packet| < HeaderLen then None
    else
      var flags1 := packet[0];
      if Version(flags1) != 1 then None
      else
        var deviceId := packet[3];
        var offset := Be32(packet[4..8]);
        var length := Be16(packet[8..10]);
        if HasFlag(flags1, Time) && |packet| < HeaderLenTime then None
        else
          var timecode := if HasFlag(flags1, Time) then Some(Be32(packet[10..14])) else None;
          var headerLen := if HasFlag(flags1, Time) then HeaderLenTime else HeaderLen;
          Some(Fields(flags1, deviceId, offset, length, headerLen, timecode))
  }

  /** Decoding an encoded header: for every choice of the four integers the
      decoder either rejects it (wrong version bits, or TIME set, since a
      10-byte header has no room for a timecode) or recovers each field
      masked to its width, with header length 10 and no timecode. */
  lemma ParseBuild(flags1: int, deviceId: int, offset: int, length: int)
    ensures var f: byte := flags1 % 0x100;
      ParseHeader(BuildHeader(flags1, deviceId, offset, length))
      == if Version(f) != 1 || HasFlag(f, Time) then None
         else Some(Fields(f, deviceId % 0x100, offset % 0x1_0000_0000, length % 0x1_0000, HeaderLen, None))
  {
  }

  /** Decoding an encoded version-1 header without TIME whose id and
      offset are in range recovers them, and the length masked to 16 bits. */
  lemma ParseBuildValid(flags1: byte, deviceId: byte, offset: nat, length: nat)
    requires Version(flags1) == 1 && !HasFlag(flags1, Time)
    requires offset < 0x1_0000_0000
    ensures ParseHeader(BuildHeader(flags1, deviceId, offset, length))
            == Some(Fields(flags1, deviceId, offset, length % 0x1_0000, HeaderLen, None))
  {
    ParseBuild(flags1, deviceId, offset, length);
    DivModUnique(flags1, 0x100, 0, flags1);
    DivModUnique(deviceId, 0x100, 0, deviceId);
    DivModUnique(offset, 0x1_0000_0000, 0, offset);
  }

  /** The round trip over the id, offset and length ranges the header test
      draws (an 8-bit id, a 32-bit offset, a 16-bit length), with a flags
      byte of version 1 and TIME clear: the fields come back unchanged.
      Other flags do not decode from a 10-byte header; `ParseBuild` covers
      every flags value. */
  lemma RoundTrip(flags1: byte, deviceId: byte, offset: nat, length: nat)
    requires Version(flags1) == 1 && !HasFlag(flags1, Time)
    requires offset < 0x1_0000_0000 && length < 0x1_0000
    ensures ParseHeader(BuildHeader(flags1, deviceId, offset, length))
            == Some(Fields(flags1, deviceId, offset, length, HeaderLen, None))
  {
    ParseBuildValid(flags1, deviceId, offset, length);
    DivModUnique(length, 0x1_0000, 0, length);
  }

  /** The other direction: re-encoding the fields of any accepted datagram
      reproduces its first ten bytes, provided the reserved bytes were zero
      (the decoder ignores them, the encoder always writes zeros). */
  lemma BuildParse(packet: seq<byte>)
    requires ParseHeader(packet).Some?
    ensures var h := ParseHeader(packet).value;
      BuildHeader(h.flags1, h.deviceId, h.offset, h.length) == packet[..HeaderLen]
      <==> packet[1] == 0 && packet[2] == 0
  {
    var h := ParseHeader(packet).value;
    Be32Bytes(packet[4..8]);
    Be16Bytes(packet[8..10]);
    var e := BuildHeader(h.flags1, h.deviceId, h.offset, h.length);
    if packet[1] == 0 && packet[2] == 0 {
      assert forall i :: 0 <= i < HeaderLen ==> e[i] == packet[i];
    }
  }

  /** A header without TIME decodes the same whatever payload follows it. */
  lemma ParseIgnoresPayload(header: seq<byte>, payload: seq<byte>)
    requires |header| == HeaderLen && !HasFlag(header[0], Time)
    ensures ParseHeader(header + payload) == ParseHeader(header)
  {
    var x := header + payload;
    assert x[..HeaderLen] == header;
    assert forall i :: 0 <= i < HeaderLen ==> x[i] == header[i];
  }

  /** A header that announces exactly the payload following it: the
      datagram decodes to the header's fields, with the length field equal
      to the payload's length masked to 16 bits, and the payload starts at
      the decoded header length. */
  lemma ParseFramed(flags1: byte, deviceId: byte, offset: nat, payload: seq<byte>)
    requires Version(flags1) == 1 && !HasFlag(flags1, Time)
    requires offset < 0x1_0000_0000
    ensures ParseHeader(BuildHeader(flags1, deviceId, offset, |payload|) + payload)
            == Some(Fields(flags1, deviceId, offset, |payload| % 0x1_0000, HeaderLen, None))
  {
    var header := BuildHeader(flags1, deviceId, offset, |payload|);
    ParseBuildValid(flags1, deviceId, offset, |payload|);
    DivModUnique(flags1, 0x100, 0, flags1);
    ParseIgnoresPayload(header, payload);
  }
}
