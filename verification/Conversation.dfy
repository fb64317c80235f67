/**
 * Host and device together: what the device sends is heard and understood by the host
 * (protocol.py), from the handshake to the answer to each command.
 */
module Conversation {
  import opened Bytes
  import opened Cli
  import opened Cobs
  import opened Frame
  import opened HostProtocol
  import Metrics

  // ----- the host knows the device's message types, and no others -----

  /** The host hears a frame exactly if its type is one of the device's; frames of other types are heard by nobody. */
  lemma HeardExactly(m: Message)
    requires |m.payload| < 65536
    ensures Listen([], WireOf(m)) == ([], if DeviceType(m.msgType) then [m] else [])
  {
    hide Accepted, Raw, Encode;
    var raw := Raw(m.msgType, m.seqNum, |m.payload|, m.payload);
    EncodeShape(raw);
    ListenSegment([], Encode(raw), [DELIMITER]);
    assert [] + Encode(raw) == Encode(raw) && [DELIMITER][1..] == [];
    assert Listen([], []) == ([], []);
    assert Heard(Encode(raw), DELIMITER) + [] == Heard(Encode(raw), DELIMITER);
    AcceptedExactly(m);
  }

  lemma AcceptedExactly(m: Message)
    requires |m.payload| < 65536
    ensures Accepted(Encode(Raw(m.msgType, m.seqNum, |m.payload|, m.payload))) ==
            if DeviceType(m.msgType) then Some(m) else None
  {
    hide Raw, Decode, Encode, Intact;
    RawParts(m.msgType, m.seqNum, |m.payload|, m.payload);
    DecodeEncode(Raw(m.msgType, m.seqNum, |m.payload|, m.payload));
  }

  // ----- what the device sends -----

  /** The frames among the outputs. */
  function Frames(outputs: seq<Output>): seq<Message> {
    if outputs == [] then []
    else Frames(outputs[..|outputs| - 1]) +
         if outputs[|outputs| - 1].Sent? then [outputs[|outputs| - 1].message] else []
  }

  predicate Fits(o: Output, maxPayload: nat) {
    o.Sent? ==> DeviceType(o.message.msgType) && |o.message.payload| <= maxPayload
  }

  /** `b` is `a` with outputs behind it that fit. */
  ghost predicate Speaks(a: seq<Output>, b: seq<Output>, maxPayload: nat) {
    |a| <= |b| && b[..|a|] == a && forall i :: |a| <= i < |b| ==> Fits(b[i], maxPayload)
  }

  lemma SpeaksOn(a: seq<Output>, b: seq<Output>, c: seq<Output>, maxPayload: nat)
    requires Speaks(a, b, maxPayload) && Speaks(b, c, maxPayload)
    ensures Speaks(a, c, maxPayload)
  {
    hide Fits;
    assert c[..|a|] == c[..|b|][..|a|];
    assert forall i :: |a| <= i < |b| ==> c[i] == c[..|b|][i];
  }

  lemma DispatchSpeaks(s: State, t: byte, q: byte, p: seq<byte>, cfg: Config)
    ensures Speaks(s.sent, Dispatch(s, t, q, p, cfg).0.sent, cfg.maxPayload)
  {
    hide GoodHello;
  }

  lemma TextByteSpeaks(s: State, b: byte, cfg: Config)
    ensures Speaks(s.sent, TextByte(s, b, cfg).sent, cfg.maxPayload)
  {
    hide Probed, Dispatch, ParserFeed, Fits;
    if b == DELIMITER && s.probe.Some? {
      match Probed(s.probe.value, cfg) {
        case Ready(t, q, p) => DispatchSpeaks(s, t, q, p, cfg);
        case _ =>
      }
    }
  }

  lemma FramedByteSpeaks(s: State, b: byte, cfg: Config)
    ensures Speaks(s.sent, FramedByte(s, b, cfg).sent, cfg.maxPayload)
  {
    hide Feed, Dispatch, Fits;
    var (d, r) := Feed(s.decoder, b, cfg.maxPayload);
    if r.Ready? {
      DispatchSpeaks(s.(decoder := d), r.msgType, r.seqNum, r.payload, cfg);
    }
  }

  lemma {:induction false} PassSpeaks(s: State, framing: bool, bytes: seq<byte>, cfg: Config)
    ensures Speaks(s.sent, Pass(s, framing, bytes, cfg).0.sent, cfg.maxPayload)
    decreases |bytes|
  {
    hide TextByte, FramedByte, Fits;
    if bytes != [] {
      var t := if framing then FramedByte(s, bytes[0], cfg) else TextByte(s, bytes[0], cfg);
      if framing {
        FramedByteSpeaks(s, bytes[0], cfg);
      } else {
        TextByteSpeaks(s, bytes[0], cfg);
      }
      PassSpeaks(t, framing || t.framed, bytes[1..], cfg);
      SpeaksOn(s.sent, t.sent, Pass(s, framing, bytes, cfg).0.sent, cfg.maxPayload);
    }
  }

  lemma DrainSpeaks(s: State, accepted: bool, cfg: Config)
    ensures Speaks(s.sent, Drained(s, accepted, cfg).sent, cfg.maxPayload)
  {
  }

  lemma {:induction false} TicksSpeak(s: State, inputs: seq<Input>, cfg: Config)
    ensures Speaks(s.sent, Ticks(s, inputs, cfg).sent, cfg.maxPayload)
    decreases |inputs|
  {
    hide Pass, Fits, Drained;
    if inputs != [] {
      var t := Read(s, inputs[0].bytes, cfg);
      var u := Tick(s, inputs[0].bytes, inputs[0].accepted, cfg);
      PassSpeaks(s, s.framed, inputs[0].bytes, cfg);
      DrainSpeaks(t, inputs[0].accepted, cfg);
      SpeaksOn(s.sent, t.sent, u.sent, cfg.maxPayload);
      TicksSpeak(u, inputs[1..], cfg);
      SpeaksOn(s.sent, u.sent, Ticks(s, inputs, cfg).sent, cfg.maxPayload);
    }
  }

  lemma {:induction false} FramesFit(outputs: seq<Output>, maxPayload: nat)
    requires forall i :: 0 <= i < |outputs| ==> Fits(outputs[i], maxPayload)
    ensures forall m :: m in Frames(outputs) ==> DeviceType(m.msgType) && |m.payload| <= maxPayload
    decreases |outputs|
  {
    hide DeviceType;
    if outputs != [] {
      FramesFit(outputs[..|outputs| - 1], maxPayload);
    }
  }

  /**
   * Whatever the device reads, in whatever state and in whichever pieces, the frames it sends
   * are heard by the host, each of them, in order, and nothing else.
   */
  lemma HostHearsTheDevice(s: State, inputs: seq<Input>, cfg: Config)
    requires cfg.maxPayload < 65536
    ensures var t := Ticks(s, inputs, cfg);
            && |s.sent| <= |t.sent| && t.sent[..|s.sent|] == s.sent
            && var ms := Frames(t.sent[|s.sent|..]); Listen([], Stream(ms)) == ([], ms)
  {
    hide Ticks, Listen, Stream, Fits;
    TicksSpeak(s, inputs, cfg);
    var t := Ticks(s, inputs, cfg);
    var added := t.sent[|s.sent|..];
    assert forall i :: 0 <= i < |added| ==> added[i] == t.sent[|s.sent| + i];
    FramesFit(added, cfg.maxPayload);
    HostHearsDevice(Frames(added));
  }

  // ----- payloads, as the host writes and reads them -----

  const VERSION: nat := 1
  const HANDSHAKE_MAGIC: nat := 0x53504F53

  function HostHello(): seq<byte> {
    Metrics.Le(2, VERSION) + Metrics.Le(4, HANDSHAKE_MAGIC)
  }

  /** `value` is the four bytes of the float. */
  function HostCommand(id: byte, device: byte, value: seq<byte>): seq<byte> {
    [id, device] + value
  }

  /** Version and magic of a handshake response. */
  function DecodeHello(p: seq<byte>): Option<(nat, nat)> {
    if |p| != 6 then None else Some((Metrics.Value(p[..2]), Metrics.Value(p[2..])))
  }

  function DecodeAck(p: seq<byte>): Option<byte> {
    if |p| != 1 then None else Some(p[0])
  }

  function DecodeNack(p: seq<byte>): Option<(byte, byte, seq<byte>)> {
    if |p| != 6 then None else Some((p[0], p[1], p[2..]))
  }

  lemma FourBytes(p: seq<byte>)
    requires |p| == 4
    ensures Metrics.Value(p) == (p[0] as int) + 0x100 * (p[1] as int) + 0x1_0000 * (p[2] as int) +
            0x100_0000 * (p[3] as int)
  {
    assert Metrics.Value(p[1..]) == (p[1] as int) + 0x100 * Metrics.Value(p[2..]);
    assert Metrics.Value(p[2..]) == (p[2] as int) + 0x100 * Metrics.Value(p[3..]);
    assert Metrics.Value(p[3..]) == (p[3] as int) + 0x100 * Metrics.Value(p[4..]);
  }

  /**
   * The device takes exactly the requests that carry the magic number, of any version, the
   * host's among them; the host reads version and magic out of its response.
   */
  lemma HelloUnderstood(p: seq<byte>)
    ensures GoodHello(p) <==> DecodeHello(p).Some? && DecodeHello(p).value.1 == HANDSHAKE_MAGIC
    ensures GoodHello(HostHello()) && |HostHello()| == 6
    ensures DecodeHello(HELLO) == Some((VERSION, HANDSHAKE_MAGIC))
  {
    if |p| == 6 {
      FourBytes(p[2..]);
    }
    HostHelloIs();
    FourBytes(HELLO[2..]);
    TwoBytes(HELLO[..2]);
  }

  lemma TwoBytes(p: seq<byte>)
    requires |p| == 2
    ensures Metrics.Value(p) == (p[0] as int) + 0x100 * (p[1] as int)
  {
    assert Metrics.Value(p[1..]) == (p[1] as int) + 0x100 * Metrics.Value(p[2..]);
  }

  lemma HostHelloIs()
    ensures HostHello() == HELLO
  {
    assert Metrics.Le(2, VERSION) == [1, 0];
    assert Metrics.Le(4, HANDSHAKE_MAGIC) == [0x53, 0x4F, 0x50, 0x53];
  }

  /** The answer to a command, as the host reads it: its own number, and its own fields. */
  predicate Answers(reply: Message, id: byte, device: byte, value: seq<byte>, seqNum: byte) {
    && reply.seqNum == seqNum
    && if reply.msgType == ACK then DecodeAck(reply.payload) == Some(id)
       else reply.msgType == NACK && DecodeNack(reply.payload) == Some((id, device, value))
  }

  lemma ReceiptUnderstood(m: Message, accepted: bool)
    requires |m.payload| == 6
    ensures var o := Receipt(m.seqNum, CommandOf(m), accepted);
            && o.Sent? && Answers(o.message, m.payload[0], m.payload[1], m.payload[2..], m.seqNum)
            && (o.message.msgType == ACK <==> accepted)
  {
  }

  // ----- a whole session -----

  lemma {:induction false} TicksConcat(s: State, a: seq<Input>, b: seq<Input>, cfg: Config)
    ensures Ticks(s, a + b, cfg) == Ticks(Ticks(s, a, cfg), b, cfg)
    decreases |a|
  {
    hide Tick;
    if a == [] {
      assert a + b == b;
    } else {
      assert (a + b)[0] == a[0] && (a + b)[1..] == a[1..] + b;
      TicksConcat(Tick(s, a[0].bytes, a[0].accepted, cfg), a[1..], b, cfg);
    }
  }

  lemma {:induction false} TicksSettle(s: State, inputs: seq<Input>, cfg: Config)
    requires Settled(s)
    ensures Settled(Ticks(s, inputs, cfg))
    decreases |inputs|
  {
    hide Tick, Coherent, HasCommand;
    if inputs != [] {
      TickKeeps(s, inputs[0].bytes, inputs[0].accepted, cfg);
      TicksSettle(Tick(s, inputs[0].bytes, inputs[0].accepted, cfg), inputs[1..], cfg);
    }
  }

  predicate IsReceipt(o: Output, m: Message)
    requires |m.payload| == 6
  {
    o == Receipt(m.seqNum, CommandOf(m), true) || o == Receipt(m.seqNum, CommandOf(m), false)
  }

  /** Receipt by receipt, in the order of the commands. */
  ghost predicate ReceiptsOf(os: seq<Output>, ms: seq<Message>) {
    |os| == |ms| && forall i :: 0 <= i < |ms| ==> |ms[i].payload| == 6 && IsReceipt(os[i], ms[i])
  }

  lemma {:induction false} AnswersInOrder(d: Decoder, inputs: seq<Input>, maxPayload: nat)
    requires UnhurriedFrames(d, inputs, maxPayload)
    ensures ReceiptsOf(FramedAnswers(d, inputs, maxPayload), CommandsIn(FeedAll(d, Received(inputs), maxPayload).1))
    decreases |inputs|
  {
    hide FeedAll, CommandsIn, IsReceipt;
    if inputs == [] {
      FeedNone(d, maxPayload);
      NoCommandsIn();
    } else {
      var bytes, rest := inputs[0].bytes, Received(inputs[1..]);
      var (e, rs) := FeedAll(d, bytes, maxPayload);
      FeedAllConcat(d, bytes, rest, maxPayload);
      CommandsInConcat(rs, FeedAll(e, rest, maxPayload).1);
      AnswersInOrder(e, inputs[1..], maxPayload);
      if CommandsIn(rs) != [] {
        assert CommandsIn(rs) == [CommandsIn(rs)[0]];
        OneReceipt(CommandsIn(rs)[0], inputs[0].accepted);
      }
    }
  }

  lemma OneReceipt(m: Message, accepted: bool)
    requires |m.payload| == 6
    ensures IsReceipt(Receipt(m.seqNum, CommandOf(m), accepted), m)
  {
  }

  lemma {:induction false} FramesOfReceipts(first: Output, os: seq<Output>, ms: seq<Message>)
    requires first.Sent? && ReceiptsOf(os, ms)
    ensures var fs := Frames([first] + os);
            && |fs| == |ms| + 1 && fs[0] == first.message
            && forall i :: 0 <= i < |ms| ==> os[i].Sent? && fs[i + 1] == os[i].message
    decreases |os|
  {
    var all := [first] + os;
    if os == [] {
      assert all[..0] == [] && all[0] == first;
    } else {
      var n := |os| - 1;
      FramesOfReceipts(first, os[..n], ms[..n]);
      assert all[..|all| - 1] == [first] + os[..n];
      assert IsReceipt(os[n], ms[n]);
    }
  }

  lemma ReceiptAnswers(o: Output, m: Message)
    requires |m.payload| == 6 && IsReceipt(o, m)
    ensures o.Sent? && Answers(o.message, m.payload[0], m.payload[1], m.payload[2..], m.seqNum)
  {
    hide Answers, Receipt;
    ReceiptUnderstood(m, true);
    ReceiptUnderstood(m, false);
  }

  /** What the host should hear in a session: the response to its handshake, and one answer to each command. */
  ghost predicate Understood(ms: seq<Message>, q: byte, cmds: seq<Message>) {
    && |ms| == |cmds| + 1
    && ms[0].msgType == HANDSHAKE_RESP && ms[0].seqNum == q
    && DecodeHello(ms[0].payload) == Some((VERSION, HANDSHAKE_MAGIC))
    && forall i :: 0 <= i < |cmds| ==>
         && |cmds[i].payload| == 6
         && Answers(ms[i + 1], cmds[i].payload[0], cmds[i].payload[1], cmds[i].payload[2..], cmds[i].seqNum)
  }

  /**
   * A whole session over the wire. The host sends its handshake and then commands, cut into
   * reads in any way that puts no two commands into one; from the frames that the device sends
   * it hears the response and then, for every command in turn, the answer to it.
   */
  lemma SessionUnderstood(s: State, q: byte, cmds: seq<Message>, opening: seq<Input>, inputs: seq<Input>, cfg: Config)
    requires Settled(s) && !s.framed && s.probe == None && s.command == None
    requires cfg.handler && 6 <= cfg.maxPayload < 65536
    requires Received(opening) == [DELIMITER] + Wire(HANDSHAKE_REQ, q, 6, HostHello())
    requires forall m :: m in cmds ==> m.msgType == COMMAND && |m.payload| == 6
    requires Received(inputs) == Stream(cmds) && UnhurriedFrames(FRESH_DECODER, inputs, cfg.maxPayload)
    ensures var t := Ticks(s, opening + inputs, cfg);
            && |s.sent| <= |t.sent|
            && Understood(Listen([], Stream(Frames(t.sent[|s.sent|..]))).1, q, cmds)
  {
    hide Ticks, Listen, Stream, Wire, FeedAll, CommandsIn, CommandsOnly, UnhurriedFrames, FramedAnswers, Received,
         Deliveries, Coherent, Frames, ReceiptsOf, Understood, GoodHello, DecodeHello, HostHello;
    HelloUnderstood(HostHello());
    HandshakeOpens(s, q, HostHello(), opening, cfg);
    var u := Ticks(s, opening, cfg);
    var response := Sent(Message(HANDSHAKE_RESP, q, HELLO));
    TicksSettle(s, opening, cfg);
    assert u.framed && u.decoder == FRESH_DECODER && u.sent == s.sent + [response];
    StreamDelivered(FRESH_DECODER, cmds, cfg.maxPayload);
    CommandsDelivered(cmds);
    FramedSession(u, inputs, cfg);
    AnswersInOrder(FRESH_DECODER, inputs, cfg.maxPayload);
    TicksConcat(s, opening, inputs, cfg);
    HostHearsTheDevice(s, opening + inputs, cfg);
    var os := FramedAnswers(FRESH_DECODER, inputs, cfg.maxPayload);
    var t := Ticks(s, opening + inputs, cfg);
    assert t.sent == s.sent + ([response] + os);
    assert t.sent[|s.sent|..] == [response] + os;
    AllUnderstood(response, q, os, cmds);
  }

  lemma AllUnderstood(response: Output, q: byte, os: seq<Output>, cmds: seq<Message>)
    requires response == Sent(Message(HANDSHAKE_RESP, q, HELLO)) && ReceiptsOf(os, cmds)
    ensures Understood(Frames([response] + os), q, cmds)
  {
    hide Answers, IsReceipt, DecodeHello, GoodHello, Frames;
    HelloUnderstood(HELLO);
    FramesOfReceipts(response, os, cmds);
    forall i | 0 <= i < |cmds|
      ensures |cmds[i].payload| == 6
      ensures var fs := Frames([response] + os);
              && |fs| == |cmds| + 1
              && Answers(fs[i + 1], cmds[i].payload[0], cmds[i].payload[1], cmds[i].payload[2..], cmds[i].seqNum)
    {
      ReceiptAnswers(os[i], cmds[i]);
    }
  }
}
