/** Sender and receiver together, across the faulty channel.

    The channel may drop a datagram (it then never reaches the receiver),
    deliver it, or deliver it with one payload byte inverted (XOR 0xFF), as
    the server's fault injector does. Whatever the order and number of
    arrivals, the receiver accepts only the sender's packets, only in
    sequence order, and only with the payload the sender put in them. */
module Transfer {
  import opened Rfc1071
  import opened Wire
  import opened GoBackNSender
  import opened GoBackNReceiver

  /** The payload of every packet of a session by sequence number: the
      segments, then the empty end-of-file payload. */
  function Stream(segments: seq<seq<Byte>>): (s: seq<seq<Byte>>)
    ensures |s| == |segments| + 1
    ensures forall n :: 0 <= n < |s| ==> s[n] == PayloadOf(segments, n)
  {
    segments + [[]]
  }

  /** What the channel does to one datagram it does not drop. */
  datatype Transit =
    | Intact
    | Inverted(pos: nat)   // payload byte pos is XORed with 0xFF

  /** The datagram the receiver gets. An empty payload is never altered. */
  function Channel(pkt: seq<Byte>, t: Transit): seq<Byte>
  {
    match t
    case Intact => pkt
    case Inverted(pos) =>
      if HEADER_LEN + pos < |pkt| then pkt[HEADER_LEN + pos := 0xFF - pkt[HEADER_LEN + pos]] else pkt
  }

  /** A packet of the session that crosses the channel intact passes the
      length and checksum checks: it is accepted exactly when it is the
      expected one, with the segment's payload, and marks the end of the
      stream exactly when it is the end-of-file packet. */
  lemma IntactVerdict(segments: seq<seq<Byte>>, n: nat, nextExpected: nat)
    requires Segmented(segments) && n <= |segments|
    ensures Outgoing(segments, n).Ok?
    ensures Classify(nextExpected, Outgoing(segments, n).value) ==
      if n == nextExpected then InOrder(Stream(segments)[n], n == |segments|) else OutOfOrder
  {
    IntactAccepted(nextExpected, n, 0, FlagOf(segments, n), PayloadOf(segments, n));
  }

  /** A packet of the session with a payload byte inverted by the channel is
      always dropped as a checksum mismatch, whatever its number. */
  lemma InvertedVerdict(segments: seq<seq<Byte>>, n: nat, pos: nat, nextExpected: nat)
    requires Segmented(segments) && n <= |segments|
    requires pos < |Stream(segments)[n]|
    ensures Outgoing(segments, n).Ok?
    ensures Classify(nextExpected, Channel(Outgoing(segments, n).value, Inverted(pos))) == ChecksumMismatch
  {
    var p := PayloadOf(segments, n);
    var pkt := Outgoing(segments, n).value;
    assert pkt[HEADER_LEN..][pos] == p[pos];
    var d := Channel(pkt, Inverted(pos));
    assert d == pkt[HEADER_LEN + pos := 0xFF - p[pos]];
    AlteredPayloadDropped(nextExpected, n, 0, FlagOf(segments, n), p, pos, 0xFF - p[pos], d);
  }

  /** The receiver's verdict on any packet of the session after the channel. */
  lemma ChannelVerdict(segments: seq<seq<Byte>>, n: nat, t: Transit, nextExpected: nat)
    requires Segmented(segments) && n <= |segments|
    ensures Outgoing(segments, n).Ok?
    ensures var v := Classify(nextExpected, Channel(Outgoing(segments, n).value, t));
      if t.Inverted? && t.pos < |Stream(segments)[n]| then v == ChecksumMismatch
      else if n == nextExpected then v == InOrder(Stream(segments)[n], n == |segments|)
      else v == OutOfOrder
  {
    IntactVerdict(segments, n, nextExpected);
    if t.Inverted? && t.pos < |Stream(segments)[n]| {
      InvertedVerdict(segments, n, t.pos, nextExpected);
    } else {
      assert Channel(Outgoing(segments, n).value, t) == Outgoing(segments, n).value;
    }
  }

  /** In-order delivery, one arrival at a time: if what the receiver has
      accepted so far is the first nextExpected packets of the stream, then
      whatever packet of the session arrives, in whatever state, what it has
      accepted afterwards is still a prefix of the stream, one longer exactly
      when it accepts; and it sees the end of the stream exactly when it
      accepts the last packet. */
  lemma InOrderDelivery(segments: seq<seq<Byte>>, delivered: seq<seq<Byte>>, nextExpected: nat, n: nat, t: Transit)
    requires Segmented(segments) && n <= |segments|
    requires nextExpected <= |segments| && delivered == Stream(segments)[..nextExpected]
    ensures Outgoing(segments, n).Ok?
    ensures var v := Classify(nextExpected, Channel(Outgoing(segments, n).value, t));
      v.InOrder? ==>
        && delivered + [v.payload] == Stream(segments)[..nextExpected + 1]
        && (v.eof <==> nextExpected + 1 == |Stream(segments)|)
  {
    ChannelVerdict(segments, n, t, nextExpected);
    var s := Stream(segments);
    var v := Classify(nextExpected, Channel(Outgoing(segments, n).value, t));
    if v.InOrder? {
      assert n == nextExpected && v.payload == s[nextExpected];
      assert s[..nextExpected + 1] == s[..nextExpected] + [s[nextExpected]];
    }
  }

  /** The receive loop over a whole run. Each arrival names the session
      packet that reached the receiver and what the channel did to it;
      packets the channel dropped do not appear, and any packet may arrive
      any number of times in any order. The loop stops at the end of the
      arrivals or once the end-of-file packet is accepted. The accepted
      payloads are always the first packets of the stream, every
      acknowledgment sent fits its header field, and once the end of the
      stream is seen the output is exactly the segments joined in order. */
  method Deliver(segments: seq<seq<Byte>>, arrivals: seq<(nat, Transit)>) returns (r: Receiver)
    requires Segmented(segments)
    requires forall k :: 0 <= k < |arrivals| ==> arrivals[k].0 <= |segments|
    ensures r.Valid() && r.nextExpected <= |segments| + 1
    ensures r.delivered == Stream(segments)[..r.nextExpected]
    ensures r.eofReceived <==> r.nextExpected == |segments| + 1
    ensures forall k :: 0 <= k < |r.acks| ==> AckDatagram(r.acks[k]).Ok?
    ensures r.eofReceived ==> r.output == Flatten(segments)
  {
    r := new Receiver.Start();
    var i := 0;
    while i < |arrivals| && !r.eofReceived
      invariant 0 <= i <= |arrivals|
      invariant r.Valid()
      invariant !r.eofReceived ==> r.nextExpected <= |segments|
      invariant r.eofReceived ==> r.nextExpected == |segments| + 1
      invariant r.delivered == Stream(segments)[..r.nextExpected]
      invariant forall k :: 0 <= k < |r.acks| ==> r.acks[k] <= r.nextExpected
    {
      var (n, t) := arrivals[i];
      InOrderDelivery(segments, r.delivered, r.nextExpected, n, t);
      r.OnDatagram(Channel(Outgoing(segments, n).value, t));
      i := i + 1;
    }
    if r.eofReceived {
      assert Stream(segments)[..r.nextExpected] == Stream(segments);
      CompleteOutput(segments);
    }
  }

  /** Once the end-of-file packet is accepted the output is exactly the
      segments joined in order: the end-of-file payload adds nothing. */
  lemma CompleteOutput(segments: seq<seq<Byte>>)
    ensures Flatten(Stream(segments)) == Flatten(segments)
  {
    assert Stream(segments)[..|segments|] == segments;
  }
}
