/** How common/usb_dbg/myudb_usb.c cuts messages into bulk packets of 64 bytes and puts them
    together again. A packet of less than 64 bytes ends a message, as in section 5.8.3 of the
    USB 2.0 specification. */
module UsbFraming {
  import opened Machine

  const PACKET := 64

  // The receiver's buffer.
  const BUFFER := 320

  // The packets of one message; the last one is short, and empty if the length is a multiple of 64.
  function Cut(message: seq<Byte>): (packets: seq<seq<Byte>>)
    ensures packets != []
    decreases |message|
  {
    if |message| < PACKET then [message] else [message[..PACKET]] + Cut(message[PACKET..])
  }

  function CutAll(messages: seq<seq<Byte>>): seq<seq<Byte>> {
    if messages == [] then [] else Cut(messages[0]) + CutAll(messages[1..])
  }

  // A receiver that has part of a message takes in packets: the messages it returns. An empty one
  // it cannot tell from having nothing to return.
  function Accepted(part: seq<Byte>, packets: seq<seq<Byte>>): seq<seq<Byte>>
    decreases |packets|
  {
    if packets == [] then []
    else Finished(part, packets[0]) + Accepted(PartThen(part, packets[0]), packets[1..])
  }

  function Finished(part: seq<Byte>, packet: seq<Byte>): seq<seq<Byte>> {
    if |packet| < PACKET && part + packet != [] then [part + packet] else []
  }

  // What of a message is left over after a run of packets.
  function PartAfter(part: seq<Byte>, packets: seq<seq<Byte>>): seq<Byte>
    decreases |packets|
  {
    if packets == [] then part
    else PartAfter(PartThen(part, packets[0]), packets[1..])
  }

  function NonEmpty(messages: seq<seq<Byte>>): (r: seq<seq<Byte>>)
    ensures |r| <= |messages|
  {
    if messages == [] then [] else Kept(messages[0]) + NonEmpty(messages[1..])
  }

  function Kept(message: seq<Byte>): (r: seq<seq<Byte>>)
    ensures |r| <= 1
  {
    if message == [] then [] else [message]
  }

  // The part held after one more packet.
  function PartThen(part: seq<Byte>, packet: seq<Byte>): seq<Byte> {
    if |packet| < PACKET then [] else part + packet
  }

  lemma {:induction false} PartConcat(part: seq<Byte>, p: seq<seq<Byte>>, q: seq<seq<Byte>>)
    ensures PartAfter(part, p + q) == PartAfter(PartAfter(part, p), q)
    decreases |p|
  {
    hide PartThen;
    if p == [] {
      assert p + q == q;
    } else {
      PartConcat(PartThen(part, p[0]), p[1..], q);
      assert (p + q)[1..] == p[1..] + q && (p + q)[0] == p[0];
    }
  }

  lemma {:induction false} AcceptedConcat(part: seq<Byte>, p: seq<seq<Byte>>, q: seq<seq<Byte>>)
    ensures Accepted(part, p + q) == Accepted(part, p) + Accepted(PartAfter(part, p), q)
    decreases |p|
  {
    hide PartThen, Finished;
    if p == [] {
      assert p + q == q;
    } else {
      AcceptedConcat(PartThen(part, p[0]), p[1..], q);
      assert (p + q)[1..] == p[1..] + q && (p + q)[0] == p[0];
    }
  }

  // A message that arrives when part of it is there already.
  lemma {:induction false} OneMessage(part: seq<Byte>, message: seq<Byte>)
    ensures Accepted(part, Cut(message)) == Kept(part + message)
    ensures PartAfter(part, Cut(message)) == []
    decreases |message|
  {
    var packets := Cut(message);
    if |message| < PACKET {
      assert packets[1..] == [];
    } else {
      OneMessage(part + message[..PACKET], message[PACKET..]);
      assert packets[0] == message[..PACKET] && packets[1..] == Cut(message[PACKET..]);
      assert part + message[..PACKET] + message[PACKET..] == part + message;
    }
  }

  // Whatever is cut is put together again, but for the empty messages.
  lemma {:induction false} RoundTrip(messages: seq<seq<Byte>>)
    ensures Accepted([], CutAll(messages)) == NonEmpty(messages)
    ensures PartAfter([], CutAll(messages)) == []
    decreases |messages|
  {
    if messages != [] {
      hide Accepted, PartAfter, Cut, Kept;
      OneMessage([], messages[0]);
      RoundTrip(messages[1..]);
      AcceptedConcat([], Cut(messages[0]), CutAll(messages[1..]));
      PartConcat([], Cut(messages[0]), CutAll(messages[1..]));
      assert [] + messages[0] == messages[0];
    }
  }

  lemma {:induction false} NonEmptyAll(messages: seq<seq<Byte>>)
    ensures NonEmpty(messages) == messages <==> forall i :: 0 <= i < |messages| ==> messages[i] != []
    decreases |messages|
  {
    if messages != [] {
      NonEmptyAll(messages[1..]);
      assert messages == [messages[0]] + messages[1..];
      if messages[0] == [] {
        assert |NonEmpty(messages)| < |messages|;
      }
    }
  }

  // The receiver returns exactly the messages sent if and only if none is empty.
  lemma RecoveredIff(messages: seq<seq<Byte>>)
    ensures Accepted([], CutAll(messages)) == messages <==> forall i :: 0 <= i < |messages| ==> messages[i] != []
  {
    RoundTrip(messages);
    NonEmptyAll(messages);
  }

  // Every packet fits the endpoint; all but the last are full and the last is not.
  lemma {:induction false} CutShape(message: seq<Byte>)
    ensures var packets := Cut(message);
      && |packets| == |message| / 64 + 1 && |packets[|packets| - 1]| == |message| % 64
      && forall i :: 0 <= i < |packets| - 1 ==> |packets[i]| == 64
    decreases |message|
  {
    if |message| >= PACKET {
      CutShape(message[PACKET..]);
    }
  }

  // The longest partial message a run of packets makes.
  predicate FitsBuffer(part: seq<Byte>, packets: seq<seq<Byte>>, size: nat)
    decreases |packets|
  {
    packets == [] ||
    (|part + packets[0]| <= size &&
     FitsBuffer(PartThen(part, packets[0]), packets[1..], size))
  }

  lemma {:induction false} FitsConcat(part: seq<Byte>, p: seq<seq<Byte>>, q: seq<seq<Byte>>, size: nat)
    ensures FitsBuffer(part, p + q, size) <==> FitsBuffer(part, p, size) && FitsBuffer(PartAfter(part, p), q, size)
    decreases |p|
  {
    if p == [] {
      assert p + q == q;
    } else {
      FitsConcat(PartThen(part, p[0]), p[1..], q, size);
      assert (p + q)[1..] == p[1..] + q && (p + q)[0] == p[0];
    }
  }

  lemma {:induction false} OneFitsIff(part: seq<Byte>, message: seq<Byte>, size: nat)
    ensures FitsBuffer(part, Cut(message), size) <==> |part + message| <= size
    decreases |message|
  {
    var packets := Cut(message);
    if |message| < PACKET {
      assert packets[1..] == [];
    } else {
      OneFitsIff(part + message[..PACKET], message[PACKET..], size);
      assert packets[0] == message[..PACKET] && packets[1..] == Cut(message[PACKET..]);
      assert part + message[..PACKET] + message[PACKET..] == part + message;
    }
  }

  // The receiver, which checks no bound, stays inside its buffer exactly when every message fits.
  lemma {:induction false} AllFitIff(messages: seq<seq<Byte>>, size: nat)
    ensures FitsBuffer([], CutAll(messages), size) <==> forall i :: 0 <= i < |messages| ==> |messages[i]| <= size
    decreases |messages|
  {
    if messages != [] {
      hide FitsBuffer, Cut;
      var rest := messages[1..];
      AllFitIff(rest, size);
      OneFitsIff([], messages[0], size);
      OneMessage([], messages[0]);
      FitsConcat([], Cut(messages[0]), CutAll(rest), size);
      assert [] + messages[0] == messages[0];
      assert messages == [messages[0]] + rest;
      assert forall i :: 0 < i < |messages| ==> messages[i] == rest[i - 1];
    } else {
      assert FitsBuffer([], CutAll(messages), size);
    }
  }

  lemma FirstPacket(part: seq<Byte>, packet: seq<Byte>, rest: seq<seq<Byte>>, size: nat)
    ensures Accepted(part, [packet] + rest) == Finished(part, packet) + Accepted(PartThen(part, packet), rest)
    ensures PartAfter(part, [packet] + rest) == PartAfter(PartThen(part, packet), rest)
    ensures FitsBuffer(part, [packet] + rest, size) <==>
            |part + packet| <= size && FitsBuffer(PartThen(part, packet), rest, size)
    ensures PartThen(part, packet) == if |packet| < PACKET then [] else part + packet
    ensures Finished(part, packet) == if |packet| < PACKET && part + packet != [] then [part + packet] else []
  {
    assert ([packet] + rest)[1..] == rest;
  }

  lemma NoPackets(part: seq<Byte>)
    ensures Accepted(part, []) == [] && PartAfter(part, []) == part
  {
  }

  // The sender takes messages from the print FIFO one after the other and sends a packet whenever
  // the endpoint is free.
  class Sender {
    // The message being sent, from the byte after those sent; NULL is none.
    var current: seq<Byte>
    var active: bool
    // Messages not yet begun, and packets sent.
    var waiting: seq<seq<Byte>>
    var packets: seq<seq<Byte>>

    // All packets there will be when everything has been sent.
    function Plan(): seq<seq<Byte>>
      reads this
    {
      packets + (if active then Cut(current) else []) + CutAll(waiting)
    }

    constructor (messages: seq<seq<Byte>>)
      ensures packets == [] && Plan() == CutAll(messages)
    {
      current, active, waiting, packets := [], false, messages, [];
      new;
      assert Plan() == CutAll(messages);
    }

    // myudb_to_usb: sends one packet of the plan, if there is one and the endpoint is free.
    method Send(busy: bool)
      modifies this
      ensures Plan() == old(Plan())
      ensures packets == if busy || |old(packets)| == |old(Plan())| then old(packets)
                         else old(Plan())[..|old(packets)| + 1]
    {
      if busy {
        return;
      }
      hide Cut;
      ghost var plan := Plan();
      if !active && waiting != [] {
        current, active, waiting := waiting[0], true, waiting[1..];
        assert Plan() == plan;
      }
      if active {
        ghost var message, tail := current, CutAll(waiting);
        var n := if |current| < PACKET then |current| else PACKET;
        packets := packets + [current[..n]];
        current := current[n..];
        if n < PACKET {
          active := false;
        }
        CutFirst(message, n);
        ghost var rest := if active then Cut(current) else [];
        PlanStep(old(packets), message[..n], rest, tail);
      }
    }
  }

  lemma CutFirst(message: seq<Byte>, n: nat)
    requires n == if |message| < PACKET then |message| else PACKET
    ensures Cut(message) == [message[..n]] + if n < PACKET then [] else Cut(message[n..])
  {
    if n < PACKET { assert message[..n] == message; }
  }

  lemma PlanStep(before: seq<seq<Byte>>, packet: seq<Byte>, rest: seq<seq<Byte>>, tail: seq<seq<Byte>>)
    ensures before + ([packet] + rest) + tail == before + [packet] + rest + tail
    ensures (before + ([packet] + rest) + tail)[..|before| + 1] == before + [packet]
  {
  }

  // The receiver puts packets together in a buffer that its caller hands over.
  class Receiver {
    const buffer: array<Byte>
    var cmdLen: nat
    ghost var part: seq<Byte>

    ghost predicate Valid()
      reads this, buffer
    {
      cmdLen <= buffer.Length && buffer[..cmdLen] == part
    }

    constructor ()
      ensures Valid() && part == [] && buffer.Length == 320 && fresh(buffer)
    {
      buffer := new Byte[BUFFER](_ => 0);
      cmdLen, part := 0, [];
    }

    // myudb_usb_get_packet: the length of a finished message, which is then in the buffer, or 0.
    method GetPacket(packet: seq<Byte>) returns (n: nat)
      requires Valid() && |part + packet| <= buffer.Length
      modifies this, buffer
      ensures Valid()
      ensures |packet| >= PACKET ==> n == 0 && part == old(part) + packet
      ensures |packet| < PACKET ==> part == [] && n == |old(part) + packet| && buffer[..n] == old(part) + packet
    {
      ghost var before, start := part, cmdLen;
      for i := 0 to |packet|
        invariant cmdLen == start + i && start == |before| && part == before
        invariant buffer[..cmdLen] == before + packet[..i]
      {
        buffer[cmdLen] := packet[i];
        cmdLen := cmdLen + 1;
        assert packet[..i + 1] == packet[..i] + [packet[i]];
      }
      assert packet[..|packet|] == packet;
      part := before + packet;
      if |packet| < PACKET {
        n := cmdLen;
        cmdLen, part := 0, [];
        return n;
      }
      return 0;
    }

    // A run of packets: the non-empty messages returned are those the packets accept.
    method GetAll(packets: seq<seq<Byte>>) returns (messages: seq<seq<Byte>>)
      requires Valid() && FitsBuffer(part, packets, buffer.Length)
      modifies this, buffer
      ensures Valid() && messages == Accepted(old(part), packets) && part == PartAfter(old(part), packets)
    {
      messages := [];
      hide FitsBuffer, Accepted, PartAfter, Finished, PartThen;
      for i := 0 to |packets|
        invariant Valid() && FitsBuffer(part, packets[i..], buffer.Length)
        invariant Accepted(old(part), packets) == messages + Accepted(part, packets[i..])
        invariant PartAfter(old(part), packets) == PartAfter(part, packets[i..])
      {
        FirstPacket(part, packets[i], packets[i + 1..], buffer.Length);
        assert packets[i..] == [packets[i]] + packets[i + 1..];
        var n := GetPacket(packets[i]);
        if n != 0 {
          messages := messages + [buffer[..n]];
        }
      }
      NoPackets(part);
    }
  }
}
