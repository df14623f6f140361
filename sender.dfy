/** The Go-Back-N sender: the transfer loop of the server, run once per
    requested file.

    Sequence numbers 0 .. |segments| - 1 carry the file's segments; number
    |segments| is the end-of-file marker (flag 1, empty payload), so a session
    has `total = |segments| + 1` packets. `base` is the oldest unacknowledged
    number, `nextseq` the next one to send. The window is filled before every
    wait; an acknowledgment moves `base` forward; a timeout resends the whole
    outstanding window [base, nextseq). */
module GoBackNSender {
  import opened Rfc1071
  import opened Wire

  /** The numbers lo, lo + 1, ..., hi - 1, in ascending order (empty when hi <= lo). */
  function Range(lo: nat, hi: nat): (r: seq<nat>)
    ensures |r| == if lo < hi then hi - lo else 0
    ensures forall k :: 0 <= k < |r| ==> r[k] == lo + k
    decreases hi - lo
  {
    if lo < hi then [lo] + Range(lo + 1, hi) else []
  }

  /** Counting up by one more number appends it at the end. */
  lemma RangeExtend(lo: nat, hi: nat)
    requires lo <= hi
    ensures Range(lo, hi) + [hi] == Range(lo, hi + 1)
  {
  }

  /** The payload of packet n: segment n, or nothing for the end-of-file packet. */
  function PayloadOf(segments: seq<seq<Byte>>, n: nat): seq<Byte>
  {
    if n < |segments| then segments[n] else []
  }

  /** The flag of packet n: 0 for a data segment, 1 for the end-of-file packet. */
  function FlagOf(segments: seq<seq<Byte>>, n: nat): int
  {
    if n < |segments| then 0 else 1
  }

  /** The datagram the sender builds for sequence number n; the ack field is always 0. */
  function Outgoing(segments: seq<seq<Byte>>, n: nat): Result<seq<Byte>>
  {
    Pack(n, 0, FlagOf(segments, n), PayloadOf(segments, n))
  }

  /** The segments of a session: each at most MSS bytes, as the file reader
      cuts them, and few enough that every sequence number and every
      acknowledgment number of the session, up to |segments| + 1 for the
      end-of-file packet, fits the 32-bit header field. The reader itself does
      not bound the number of segments. */
  ghost predicate Segmented(segments: seq<seq<Byte>>)
  {
    && |segments| + 1 < U32_LIMIT
    && forall i :: 0 <= i < |segments| ==> |segments[i]| <= MSS
  }

  /** Every packet of a session encodes, and the receiver reads back its
      number, ack 0, the right flag and exactly the payload it carries. */
  lemma OutgoingFields(segments: seq<seq<Byte>>, n: nat)
    requires Segmented(segments) && n <= |segments|
    ensures Outgoing(segments, n).Ok?
    ensures var p := if n < |segments| then segments[n] else [];
      Unpack(Outgoing(segments, n).value) ==
        Ok(Fields(n, 0, if n < |segments| then 0 else 1, |p|, ChecksumField(p), p))
  {
    PackUnpack(n, 0, FlagOf(segments, n), PayloadOf(segments, n));
  }

  /** What one turn of the transfer loop leads to. */
  datatype StepOutcome =
    | Running   // the loop goes on while base < total
    | Aborted   // the client reset the connection: the session ends, the server waits for the next request
    | Failed    // a datagram shorter than a header arrived: unpacking raises and nothing catches it

  /** What ends one wait for an acknowledgment. */
  datatype Event =
    | Arrival(datagram: seq<Byte>)  // some datagram was received
    | Timeout                       // nothing arrived within the retransmission timeout
    | Reset                         // the transport reported a connection reset

  class Sender {
    const segments: seq<seq<Byte>>
    const total: nat
    const window: nat
    var base: nat
    var nextseq: nat
    /** Every sequence number transmitted so far, in order of transmission;
        the datagram for number n is Outgoing(segments, n). */
    ghost var sent: seq<nat>

    ghost predicate Valid()
      reads this
    {
      total == |segments| + 1 && nextseq <= total
    }

    /** The sliding-window invariant. */
    ghost predicate InWindow()
      reads this
    {
      base <= nextseq <= total && nextseq - base <= window
    }

    /** The session is over once every packet, end-of-file included, is acknowledged. */
    predicate Done()
      reads this
    {
      base >= total
    }

    /** Start of a session: nothing sent, nothing acknowledged. */
    constructor Start(segments: seq<seq<Byte>>, window: nat)
      ensures Valid() && InWindow() && !Done()
      ensures this.segments == segments && this.window == window && total == |segments| + 1
      ensures base == 0 && nextseq == 0 && sent == []
    {
      this.segments := segments;
      this.window := window;
      total := |segments| + 1;
      base := 0;
      nextseq := 0;
      sent := [];
    }

    /** Sends nextseq, nextseq + 1, ... while there is something left to send
        and fewer than `window` packets are outstanding. */
    method FillWindow()
      requires Valid()
      modifies this`nextseq, this`sent
      ensures Valid()
      ensures old(nextseq) < total && old(nextseq) - base < window ==>
        nextseq == Min(total, base + window)
      ensures !(old(nextseq) < total && old(nextseq) - base < window) ==> nextseq == old(nextseq)
      ensures sent == old(sent) + Range(old(nextseq), nextseq)
      ensures nextseq == total || nextseq - base >= window
      ensures old(InWindow()) ==> InWindow()
    {
      while nextseq < total && nextseq - base < window
        invariant Valid() && old(nextseq) <= nextseq
        invariant old(nextseq) < nextseq ==> nextseq <= Min(total, base + window)
        invariant sent == old(sent) + Range(old(nextseq), nextseq)
      {
        RangeExtend(old(nextseq), nextseq);
        sent := sent + [nextseq];
        nextseq := nextseq + 1;
      }
    }

    /** An acknowledgment carrying a moves base up to a when a is larger;
        stale and duplicate acknowledgments change nothing. The value is not
        compared with nextseq, so the window invariant survives only an
        acknowledgment of something already sent. */
    method OnAck(a: nat)
      requires Valid()
      modifies this`base
      ensures Valid() && base >= old(base)
      ensures base == if a > old(base) then a else old(base)
      ensures old(InWindow()) && a <= nextseq ==> InWindow()
    {
      if a > base {
        base := a;
      }
    }

    /** Go-Back-N retransmission: every outstanding number, base to
        nextseq - 1, is sent again in ascending order; nothing else changes. */
    method OnTimeout()
      requires Valid()
      modifies this`sent
      ensures sent == old(sent) + Range(base, nextseq)
    {
      var resend := base;
      while resend < nextseq
        invariant base <= resend && (resend <= nextseq || resend == base)
        invariant sent == old(sent) + Range(base, resend)
      {
        RangeExtend(base, resend);
        sent := sent + [resend];
        resend := resend + 1;
      }
    }

    /** One turn of the transfer loop: fill the window, then handle what
        ended the wait. The acknowledgment number is taken from any datagram
        that unpacks, whatever its flag or checksum. */
    method Step(ev: Event) returns (outcome: StepOutcome)
      requires Valid() && !Done()
      modifies this`base, this`nextseq, this`sent
      ensures Valid()
      ensures old(nextseq) < total && old(nextseq) - old(base) < window ==>
        nextseq == Min(total, old(base) + window)
      ensures !(old(nextseq) < total && old(nextseq) - old(base) < window) ==> nextseq == old(nextseq)
      ensures ev.Timeout? ==>
        outcome == Running && base == old(base) &&
        sent == old(sent) + Range(old(nextseq), nextseq) + Range(base, nextseq)
      ensures ev.Reset? ==>
        outcome == Aborted && base == old(base) && sent == old(sent) + Range(old(nextseq), nextseq)
      ensures ev.Arrival? ==>
        sent == old(sent) + Range(old(nextseq), nextseq) &&
        match Unpack(ev.datagram)
        case Err(_) => outcome == Failed && base == old(base)
        case Ok(f) => outcome == Running && base == (if f.ack > old(base) then f.ack else old(base))
      ensures old(InWindow()) && (ev.Arrival? && Unpack(ev.datagram).Ok? ==> Unpack(ev.datagram).value.ack <= nextseq) ==>
        InWindow()
    {
      FillWindow();
      match ev {
        case Timeout =>
          OnTimeout();
          outcome := Running;
        case Reset =>
          outcome := Aborted;
        case Arrival(d) =>
          var r := Unpack(d);
          if r.Err? {
            outcome := Failed;
          } else {
            OnAck(r.value.ack);
            outcome := Running;
          }
      }
    }
  }
}
