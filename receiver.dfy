/** The Go-Back-N receiver: the receive loop of the client.

    Each arriving datagram goes through the checks in order, the first that
    fails deciding: it must unpack, its declared length must match the payload
    present, a non-empty payload must match its checksum, and its number must
    be the one expected. Only then is its payload appended to the output and
    the expected number advanced; every datagram, accepted or not, is answered
    with a cumulative acknowledgment of the expected number. The receiver never
    buffers a packet that arrives ahead of its turn. */
module GoBackNReceiver {
  import opened Rfc1071
  import opened Wire

  /** How the receiver treats one datagram. */
  datatype Verdict =
    | Malformed                                // shorter than a header
    | LengthMismatch                           // data_len differs from the payload bytes present
    | ChecksumMismatch                         // non-empty payload whose checksum differs
    | OutOfOrder                               // intact, but not the expected number
    | InOrder(payload: seq<Byte>, eof: bool)   // accepted; eof when its flag is 1

  /** The checks of the receive loop, in the order the loop applies them:
      a datagram that does not unpack is malformed; one whose data_len
      differs from the payload bytes present is a length mismatch; one with a
      non-empty payload whose checksum differs from the header's is a
      checksum mismatch (an empty payload skips this check); what is left is
      accepted exactly when it carries the expected number. */
  function Classify(nextExpected: nat, pkt: seq<Byte>): (v: Verdict)
    ensures |pkt| < HEADER_LEN <==> v == Malformed
    ensures v == LengthMismatch <==>
      Unpack(pkt).Ok? && Unpack(pkt).value.dataLen != |Unpack(pkt).value.payload|
    ensures v == ChecksumMismatch <==>
      && Unpack(pkt).Ok?
      && Unpack(pkt).value.dataLen == |Unpack(pkt).value.payload| > 0
      && Checksum(Unpack(pkt).value.payload) != Unpack(pkt).value.checksum
    ensures Unpack(pkt).Ok? && Unpack(pkt).value.payload == [] ==> v != ChecksumMismatch
    ensures v.InOrder? ==>
      && HEADER_LEN + |v.payload| <= |pkt|
      && pkt[HEADER_LEN..HEADER_LEN + |v.payload|] == v.payload
      && Unpack(pkt).value.seqNo == nextExpected
      && Unpack(pkt).value.payload == v.payload
      && Unpack(pkt).value.dataLen == |v.payload|
      && (|v.payload| > 0 ==> Checksum(v.payload) == Unpack(pkt).value.checksum)
      && (v.eof <==> Unpack(pkt).value.flag == 1)
    ensures v == OutOfOrder ==> Unpack(pkt).Ok? && Unpack(pkt).value.seqNo != nextExpected
  {
    match Unpack(pkt)
    case Err(_) => Malformed
    case Ok(f) =>
      if f.dataLen != |f.payload| then LengthMismatch
      else if f.dataLen > 0 && Checksum(f.payload) != f.checksum then ChecksumMismatch
      else if f.seqNo == nextExpected then InOrder(f.payload, f.flag == 1)
      else OutOfOrder
  }

  /** The payloads joined end to end, first to last. */
  function Flatten(chunks: seq<seq<Byte>>): seq<Byte>
  {
    if chunks == [] then [] else Flatten(chunks[..|chunks| - 1]) + chunks[|chunks| - 1]
  }

  /** The acknowledgment datagram: ack = n, seq = n - 1 (0 when n is 0),
      flag 1, no payload. */
  function AckDatagram(n: nat): Result<seq<Byte>>
  {
    Pack(if n > 0 then n - 1 else 0, n, 1, [])
  }

  /** An acknowledgment reads back as ack n, seq n - 1 or 0, flag 1, data
      length 0, checksum 0 and an empty payload. */
  lemma AckFields(n: nat)
    requires n < U32_LIMIT
    ensures AckDatagram(n).Ok?
    ensures Unpack(AckDatagram(n).value) == Ok(Fields(if n > 0 then n - 1 else 0, n, 1, 0, 0, []))
  {
    PackUnpack(if n > 0 then n - 1 else 0, n, 1, []);
  }

  /** The request that opens a session: seq 0, ack 0, flag 0, the encoded
      resource name as payload. */
  function RequestDatagram(name: seq<Byte>): Result<seq<Byte>>
  {
    Pack(0, 0, 0, name)
  }

  /** A request for a name below 2^16 bytes encodes, and the server reads
      the name back unchanged with seq 0, ack 0 and flag 0. */
  lemma RequestFields(name: seq<Byte>)
    requires |name| < U16_LIMIT
    ensures RequestDatagram(name).Ok?
    ensures Unpack(RequestDatagram(name).value) == Ok(Fields(0, 0, 0, |name|, ChecksumField(name), name))
  {
    PackUnpack(0, 0, 0, name);
  }

  /** A datagram exactly as pack_packet built it passes the length and
      checksum checks: the receiver accepts it if it is the expected one and
      otherwise treats it as out of order. */
  lemma IntactAccepted(nextExpected: nat, seqNo: nat, ack: nat, flag: int, payload: seq<Byte>)
    requires seqNo < U32_LIMIT && ack < U32_LIMIT && |payload| < U16_LIMIT
    ensures Pack(seqNo, ack, flag, payload).Ok?
    ensures Classify(nextExpected, Pack(seqNo, ack, flag, payload).value) ==
      if seqNo == nextExpected then InOrder(payload, flag % 0x100 == 1) else OutOfOrder
  {
    PackUnpack(seqNo, ack, flag, payload);
  }

  /** A datagram built by pack_packet with one payload byte altered in
      transit is always dropped as a checksum mismatch. */
  lemma AlteredPayloadDropped(nextExpected: nat, seqNo: nat, ack: nat, flag: int, payload: seq<Byte>,
                              i: nat, b: Byte, altered: seq<Byte>)
    requires seqNo < U32_LIMIT && ack < U32_LIMIT && |payload| < U16_LIMIT
    requires i < |payload| && b != payload[i]
    requires Pack(seqNo, ack, flag, payload).Ok?
    requires altered == Pack(seqNo, ack, flag, payload).value[HEADER_LEN + i := b]
    ensures Classify(nextExpected, altered) == ChecksumMismatch
  {
    PackUnpack(seqNo, ack, flag, payload);
    var pkt := Pack(seqNo, ack, flag, payload).value;
    assert altered[0..4] == pkt[0..4] && altered[4..8] == pkt[4..8] && altered[8] == pkt[8];
    assert altered[9..11] == pkt[9..11] && altered[11..13] == pkt[11..13];
    assert altered[HEADER_LEN..HEADER_LEN + |payload|] == payload[i := b];
    ChecksumDetectsByteChange(payload, i, b);
  }

  class Receiver {
    var nextExpected: nat
    var eofReceived: bool
    /** The bytes written to the output file so far. */
    var output: seq<Byte>
    /** The acknowledgment numbers sent so far, in order; the datagram for n is AckDatagram(n). */
    var acks: seq<nat>
    /** The payload accepted for each sequence number 0 .. nextExpected - 1. */
    ghost var delivered: seq<seq<Byte>>

    ghost predicate Valid()
      reads this
    {
      |delivered| == nextExpected && output == Flatten(delivered)
    }

    /** The state after the request has been sent: nothing received. */
    constructor Start()
      ensures Valid()
      ensures nextExpected == 0 && !eofReceived && output == [] && acks == [] && delivered == []
    {
      nextExpected := 0;
      eofReceived := false;
      output := [];
      acks := [];
      delivered := [];
    }

    /** Handles one arriving datagram. A datagram the checks drop, or one
        out of order, changes nothing but the acknowledgment log, which gets
        the current expected number again. An accepted one appends its payload,
        advances the expected number by one and acknowledges the new number;
        its flag alone decides whether the stream has ended. */
    method OnDatagram(pkt: seq<Byte>)
      requires Valid() && !eofReceived
      modifies this
      ensures Valid()
      ensures var v := Classify(old(nextExpected), pkt);
        if v.InOrder? then
          && nextExpected == old(nextExpected) + 1
          && output == old(output) + v.payload
          && delivered == old(delivered) + [v.payload]
          && eofReceived == v.eof
          && acks == old(acks) + [nextExpected]
        else
          && nextExpected == old(nextExpected)
          && output == old(output)
          && delivered == old(delivered)
          && !eofReceived
          && acks == old(acks) + [nextExpected]
    {
      var r := Unpack(pkt);
      if r.Err? {
        acks := acks + [nextExpected];
        return;
      }
      var f := r.value;
      if f.dataLen != |f.payload| {
        acks := acks + [nextExpected];
        return;
      }
      if f.dataLen > 0 {
        var c := InternetChecksum(f.payload);
        if c != f.checksum {
          acks := acks + [nextExpected];
          return;
        }
      }
      if f.seqNo == nextExpected {
        if f.dataLen > 0 {
          output := output + f.payload;
        }
        assert (delivered + [f.payload])[..|delivered|] == delivered;
        delivered := delivered + [f.payload];
        nextExpected := nextExpected + 1;
        acks := acks + [nextExpected];
        if f.flag == 1 {
          eofReceived := true;
        }
      } else {
        acks := acks + [nextExpected];
      }
    }

    /** Nothing arrived within the wait: the current acknowledgment is sent again. */
    method OnIdle()
      requires Valid()
      modifies this`acks
      ensures acks == old(acks) + [nextExpected]
    {
      acks := acks + [nextExpected];
    }
  }
}
