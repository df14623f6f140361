/** The datagram format shared by sender and receiver: a 13-byte big-endian
    header `seq:u32, ack:u32, flag:u8, data_len:u16, checksum:u16` followed by
    the payload. The checksum covers the payload only and is 0 for an empty
    payload. */
module Wire {
  import opened Rfc1071

  /** Length of the fixed header. */
  const HEADER_LEN: nat := 13

  /** Largest payload the sender puts in one segment. */
  const MSS: nat := 1024

  const U16_LIMIT: nat := 0x1_0000
  const U32_LIMIT: nat := 0x1_0000_0000

  datatype WireError =
    | FieldOutOfRange  // the header encoder refuses a field that does not fit its width
    | PacketTooShort   // fewer bytes than the fixed header

  datatype Result<T> = Ok(value: T) | Err(error: WireError)

  /** The six values unpack_packet returns: the header fields and the payload. */
  datatype Fields = Fields(seqNo: nat, ack: nat, flag: nat, dataLen: nat, checksum: nat, payload: seq<Byte>)

  function Min(a: int, b: int): int { if a <= b then a else b }

  /** Big-endian encoding of a 16-bit value. */
  function BE16(n: nat): (b: seq<Byte>)
    requires n < U16_LIMIT
    ensures |b| == 2
  {
    [n / 0x100, n % 0x100]
  }

  /** Big-endian encoding of a 32-bit value. */
  function BE32(n: nat): (b: seq<Byte>)
    requires n < U32_LIMIT
    ensures |b| == 4
  {
    BE16(n / U16_LIMIT) + BE16(n % U16_LIMIT)
  }

  /** Big-endian decoding of two bytes. */
  function U16(b: seq<Byte>): (n: nat)
    requires |b| == 2
    ensures n < U16_LIMIT
  {
    b[0] as int * 0x100 + b[1] as int
  }

  /** Big-endian decoding of four bytes. */
  function U32(b: seq<Byte>): (n: nat)
    requires |b| == 4
    ensures n < U32_LIMIT
  {
    U16(b[..2]) * U16_LIMIT + U16(b[2..])
  }

  lemma U16RoundTrip(n: nat)
    requires n < U16_LIMIT
    ensures U16(BE16(n)) == n
  {
  }

  /** Decoding a 32-bit big-endian field gives back the value encoded. */
  lemma U32RoundTrip(n: nat)
    requires n < U32_LIMIT
    ensures U32(BE32(n)) == n
  {
    var b := BE32(n);
    assert b[..2] == BE16(n / U16_LIMIT);
    assert b[2..] == BE16(n % U16_LIMIT);
    U16RoundTrip(n / U16_LIMIT);
    U16RoundTrip(n % U16_LIMIT);
  }

  /** The checksum field pack_packet writes: the Internet checksum of a
      non-empty payload, 0 for an empty one. */
  function ChecksumField(payload: seq<Byte>): (c: nat)
    ensures c < U16_LIMIT
    ensures |payload| == 0 ==> c == 0
  {
    if |payload| > 0 then Checksum(payload) else 0
  }

  /** The header bytes for the given field values. */
  function Header(seqNo: nat, ack: nat, flag: Byte, dataLen: nat, chk: nat): (h: seq<Byte>)
    requires seqNo < U32_LIMIT && ack < U32_LIMIT && dataLen < U16_LIMIT && chk < U16_LIMIT
    ensures |h| == HEADER_LEN
  {
    BE32(seqNo) + BE32(ack) + [flag] + BE16(dataLen) + BE16(chk)
  }

  /** pack_packet: header then payload. The struct encoder fails on a seq or
      ack outside the unsigned 32-bit range or a payload of 2^16 bytes or
      more; the flag is first masked to its low 8 bits. */
  function Pack(seqNo: int, ack: int, flag: int, payload: seq<Byte>): (r: Result<seq<Byte>>)
    ensures r.Ok? <==> 0 <= seqNo < U32_LIMIT && 0 <= ack < U32_LIMIT && |payload| < U16_LIMIT
    ensures r.Ok? ==> |r.value| == HEADER_LEN + |payload| && r.value[HEADER_LEN..] == payload
  {
    var dataLen := |payload|;
    var chk := ChecksumField(payload);
    if 0 <= seqNo < U32_LIMIT && 0 <= ack < U32_LIMIT && dataLen < U16_LIMIT then
      Ok(Header(seqNo, ack, flag % 0x100, dataLen, chk) + payload)
    else
      Err(FieldOutOfRange)
  }

  /** unpack_packet: refuses anything shorter than the header; otherwise reads
      the header and takes as payload the bytes after it, up to data_len of
      them (fewer when the datagram is shorter than it claims). */
  function Unpack(pkt: seq<Byte>): (r: Result<Fields>)
    ensures r.Err? <==> |pkt| < HEADER_LEN
    ensures r.Err? ==> r.error == PacketTooShort
    ensures r.Ok? ==> var f := r.value;
      && |f.payload| == Min(f.dataLen, |pkt| - HEADER_LEN)
      && f.payload == pkt[HEADER_LEN..HEADER_LEN + |f.payload|]
      && f.seqNo < U32_LIMIT && f.ack < U32_LIMIT && f.flag < 0x100
      && f.dataLen < U16_LIMIT && f.checksum < U16_LIMIT
  {
    if |pkt| < HEADER_LEN then
      Err(PacketTooShort)
    else
      var dataLen := U16(pkt[9..11]);
      var payload := pkt[HEADER_LEN..Min(HEADER_LEN + dataLen, |pkt|)];
      Ok(Fields(U32(pkt[0..4]), U32(pkt[4..8]), pkt[8], dataLen, U16(pkt[11..13]), payload))
  }

  /** Unpacking what pack_packet produced gives back every field: seq, ack, the
      masked flag, the payload length, the checksum field and the payload. */
  lemma PackUnpack(seqNo: int, ack: int, flag: int, payload: seq<Byte>)
    requires 0 <= seqNo < U32_LIMIT && 0 <= ack < U32_LIMIT && |payload| < U16_LIMIT
    ensures Pack(seqNo, ack, flag, payload).Ok?
    ensures Unpack(Pack(seqNo, ack, flag, payload).value) ==
      Ok(Fields(seqNo, ack, flag % 0x100, |payload|, ChecksumField(payload), payload))
  {
    var chk := ChecksumField(payload);
    var pkt := Pack(seqNo, ack, flag, payload).value;
    assert pkt == BE32(seqNo) + BE32(ack) + [flag % 0x100] + BE16(|payload|) + BE16(chk) + payload;
    assert pkt[0..4] == BE32(seqNo);
    assert pkt[4..8] == BE32(ack);
    assert pkt[9..11] == BE16(|payload|);
    assert pkt[11..13] == BE16(chk);
    U32RoundTrip(seqNo);
    U32RoundTrip(ack);
    U16RoundTrip(|payload|);
    U16RoundTrip(chk);
    assert pkt[HEADER_LEN..HEADER_LEN + |payload|] == payload;
  }
}
