/**
 * The command-line front end (CLI.h, CommandParser.h, ProtocolRouter.h) with the comms task
 * (ScheduledCommsTask.h) as its handler: text and framed mode, and the switch between them.
 */
module Cli {
  import opened Bytes
  import opened Cobs
  import opened Frame

  const NEWLINE: byte := 10
  const RETURN: byte := 13
  const MAX_PROBE: nat := 64
  const MAGIC: int := 0x53504F53
  const FRESH_DECODER: Decoder := Decoder([], HEARTBEAT, 0, [])
  const HELLO: seq<byte> := [1, 0, 0x53, 0x4F, 0x50, 0x53]

  /** `value` is the four bytes of the float. */
  datatype Command = Command(id: byte, device: byte, value: seq<byte>)

  datatype Parser = Parser(line: seq<byte>, pending: Option<Command>)

  datatype Output = Sent(message: Message) | TextAck(cmd: Command) | TextNack(cmd: Command)

  /** `parse` is the line grammar, `snapshot` the payload of a metrics reply; `handler` whether one is set. */
  datatype Config = Config(maxPayload: nat, maxLine: nat, handler: bool,
                           parse: seq<byte> -> Option<Command>, snapshot: seq<byte>)

  datatype State = State(
    framed: bool, parser: Parser, hasPending: bool,
    decoder: Decoder, command: Option<Command>, commandSeq: byte,
    probe: Option<seq<byte>>,   // None: no zero byte seen; otherwise what followed it
    sent: seq<Output>)          // what was written to the stream

  // ----- the line parser -----

  function ParserFeed(p: Parser, b: byte, cfg: Config): (Parser, bool) {
    if b == NEWLINE || b == RETURN then
      if p.line == [] then (p, false)
      else match cfg.parse(p.line)
        case Some(c) => (Parser([], Some(c)), true)
        case None => (p.(line := []), false)
    else if |p.line| >= cfg.maxLine - 1 then (p.(line := []), false)
    else (p.(line := p.line + [b]), false)
  }

  /** The bare parser on a whole stream: its state, and the commands it completes. */
  function ParserRun(p: Parser, bytes: seq<byte>, cfg: Config): (Parser, seq<Command>)
    decreases |bytes|
  {
    if bytes == [] then (p, [])
    else
      var (q, done) := ParserFeed(p, bytes[0], cfg);
      var (r, cmds) := ParserRun(q, bytes[1..], cfg);
      (r, if done && q.pending.Some? then [q.pending.value] + cmds else cmds)
  }

  // ----- the handler -----

  function Send(s: State, t: byte, q: byte, payload: seq<byte>, cfg: Config): State {
    if |payload| <= cfg.maxPayload then s.(sent := s.sent + [Sent(Message(t, q, payload))]) else s
  }

  function Enter(s: State): State {
    s.(framed := true, probe := None, decoder := FRESH_DECODER)
  }

  function Exit(s: State): State {
    s.(framed := false, hasPending := false, command := None, parser := Parser([], None))
  }

  predicate GoodHello(p: seq<byte>) {
    |p| == 6 && (p[2] as int) + 0x100 * (p[3] as int) + 0x1_0000 * (p[4] as int) + 0x100_0000 * (p[5] as int) == MAGIC
  }

  function Dispatch(s: State, t: byte, q: byte, p: seq<byte>, cfg: Config): (State, bool) {
    if !cfg.handler then (s, false)
    else if t == COMMAND then (s, |p| == 6)
    else if t == HANDSHAKE_REQ then
      if GoodHello(p) then (Send(s, HANDSHAKE_RESP, q, HELLO, cfg), true) else (s, false)
    else if t == EXIT_HANDSHAKE then (Exit(Send(s, ACK, q, [EXIT_HANDSHAKE], cfg)), true)
    else if t == METRICS_REQ then (Send(s, METRICS_RESP, q, cfg.snapshot, cfg), true)
    else if t == HEARTBEAT then (Send(s, HEARTBEAT, q, [], cfg), true)
    else (s, false)
  }

  // ----- text mode -----

  /** The answer of a fresh decoder to the probed bytes and their delimiter. */
  function Probed(seg: seq<byte>, cfg: Config): Result {
    Feed(FeedAll(FRESH_DECODER, seg, cfg.maxPayload).0, DELIMITER, cfg.maxPayload).1
  }

  function TryHandshake(s: State, seg: seq<byte>, cfg: Config): (State, bool) {
    if !cfg.handler then (s, false)
    else match Probed(seg, cfg)
      case Ready(t, q, p) =>
        if t != HANDSHAKE_REQ then (s, false)
        else
          var (u, ok) := Dispatch(s, t, q, p, cfg);
          if ok then (Enter(u), true) else (u, false)
      case _ => (s, false)
  }

  function FeedText(s: State, b: byte, cfg: Config): State {
    var (p, done) := ParserFeed(s.parser, b, cfg);
    s.(parser := p, hasPending := s.hasPending || done)
  }

  function TextByte(s: State, b: byte, cfg: Config): State {
    if b == DELIMITER then
      var (u, ok) := if s.probe.Some? && s.probe.value != [] then TryHandshake(s, s.probe.value, cfg) else (s, false);
      if ok then u else u.(probe := Some([]))
    else if s.probe.Some? then
      if |s.probe.value| < MAX_PROBE then s.(probe := Some(s.probe.value + [b]))
      else FeedText(s.(probe := None), b, cfg)
    else FeedText(s, b, cfg)
  }

  // ----- framed mode -----

  function Handle(s: State, r: Result, cfg: Config): State {
    match r
    case Ready(t, q, p) =>
      if t == COMMAND then
        if |p| == 6 then s.(command := Some(Command(p[0], p[1], p[2..])), commandSeq := q) else s
      else Dispatch(s, t, q, p, cfg).0
    case _ => s
  }

  function FramedByte(s: State, b: byte, cfg: Config): State {
    var (d, r) := Feed(s.decoder, b, cfg.maxPayload);
    Handle(s.(decoder := d), r, cfg)
  }

  // ----- one read -----

  /**
   * One pass over the read buffer. `framing` is the loop the pass is in: it follows the mode
   * into framed mode, but does not come back from it.
   */
  function Pass(s: State, framing: bool, bytes: seq<byte>, cfg: Config): (State, bool)
    decreases |bytes|
  {
    if bytes == [] then (s, framing)
    else if framing then Pass(FramedByte(s, bytes[0], cfg), true, bytes[1..], cfg)
    else
      var t := TextByte(s, bytes[0], cfg);
      Pass(t, t.framed, bytes[1..], cfg)
  }

  function Read(s: State, bytes: seq<byte>, cfg: Config): State {
    Pass(s, s.framed, bytes, cfg).0
  }

  // ----- draining -----

  predicate HasCommand(s: State) {
    if s.framed then s.command.Some? else s.hasPending
  }

  function GetCommand(s: State): (State, Option<Command>) {
    if s.framed then (s.(command := None), s.command)
    else if s.hasPending && s.parser.pending.Some? then
      (s.(hasPending := false, parser := s.parser.(pending := None)), s.parser.pending)
    else (s, None)
  }

  function Answer(s: State, c: Command, accepted: bool, cfg: Config): State {
    if s.framed then
      if accepted then Send(s, ACK, s.commandSeq, [c.id], cfg)
      else Send(s, NACK, s.commandSeq, [c.id, c.device] + c.value, cfg)
    else s.(sent := s.sent + [if accepted then TextAck(c) else TextNack(c)])
  }

  /** One round of the drain loop. */
  function DrainRound(s: State, accepted: bool, cfg: Config): State {
    match GetCommand(s)
    case (t, Some(c)) => Answer(t, c, accepted, cfg)
    case (t, None) => t
  }

  /** The drain loop; one round of it suffices (DrainOnce). */
  function Drained(s: State, accepted: bool, cfg: Config): State {
    if HasCommand(s) then DrainRound(s, accepted, cfg) else s
  }

  /** A whole comms tick: the read, and the drain of what it left. */
  function Tick(s: State, bytes: seq<byte>, accepted: bool, cfg: Config): State {
    Drained(Read(s, bytes, cfg), accepted, cfg)
  }

  /** What the drain puts on the command queue. */
  function Offered(s: State, accepted: bool): seq<Command> {
    if HasCommand(s) && accepted && GetCommand(s).1.Some? then [GetCommand(s).1.value] else []
  }

  datatype Input = Input(bytes: seq<byte>, accepted: bool)

  function Ticks(s: State, inputs: seq<Input>, cfg: Config): State
    decreases |inputs|
  {
    if inputs == [] then s else Ticks(Tick(s, inputs[0].bytes, inputs[0].accepted, cfg), inputs[1..], cfg)
  }

  /** What a run of ticks puts on the command queue, in order. */
  function Pushes(s: State, inputs: seq<Input>, cfg: Config): seq<Command>
    decreases |inputs|
  {
    if inputs == [] then []
    else
      Offered(Read(s, inputs[0].bytes, cfg), inputs[0].accepted) +
      Pushes(Tick(s, inputs[0].bytes, inputs[0].accepted, cfg), inputs[1..], cfg)
  }

  function Received(inputs: seq<Input>): seq<byte> {
    if inputs == [] then [] else inputs[0].bytes + Received(inputs[1..])
  }

  const POWER_ON: State := State(false, Parser([], None), false, FRESH_DECODER, None, 0, None, [])

  // ----- what every step keeps -----

  /**
   * The pending flag mirrors the parser's, probing happens in text mode only and within its
   * buffer, and a framed command carries the four bytes of a float.
   */
  ghost predicate Coherent(s: State) {
    && s.hasPending == s.parser.pending.Some?
    && (s.framed ==> s.probe == None)
    && (s.probe.Some? ==> |s.probe.value| <= MAX_PROBE && ZeroFree(s.probe.value))
    && (s.command.Some? ==> |s.command.value.value| == 4)
  }

  /** What a tick leaves behind: nothing to take in the mode it ends in. */
  ghost predicate Settled(s: State) {
    Coherent(s) && !HasCommand(s)
  }

  lemma TextByteKeeps(s: State, b: byte, cfg: Config)
    requires Coherent(s) && !s.framed
    ensures Coherent(TextByte(s, b, cfg))
  {
    hide Probed, GoodHello;
  }

  lemma FramedByteKeeps(s: State, b: byte, cfg: Config)
    requires Coherent(s) && s.probe == None
    ensures Coherent(FramedByte(s, b, cfg)) && FramedByte(s, b, cfg).probe == None
    ensures FramedByte(s, b, cfg).framed ==> s.framed
  {
    hide Feed, GoodHello;
  }

  lemma {:induction false} PassKeeps(s: State, framing: bool, bytes: seq<byte>, cfg: Config)
    requires Coherent(s) && (s.framed ==> framing) && (framing ==> s.probe == None)
    ensures var (t, f) := Pass(s, framing, bytes, cfg);
            Coherent(t) && (t.framed ==> f) && (f ==> t.probe == None)
    decreases |bytes|
  {
    hide TextByte, FramedByte, HasCommand;
    if bytes != [] {
      if framing {
        FramedByteKeeps(s, bytes[0], cfg);
        PassKeeps(FramedByte(s, bytes[0], cfg), true, bytes[1..], cfg);
      } else {
        TextByteKeeps(s, bytes[0], cfg);
        var t := TextByte(s, bytes[0], cfg);
        PassKeeps(t, t.framed, bytes[1..], cfg);
      }
    }
  }

  /** The drain loop ends after one round: the slot it looked into is then empty. */
  lemma DrainOnce(s: State, accepted: bool, cfg: Config)
    requires Coherent(s) && HasCommand(s)
    ensures GetCommand(s).1.Some?
    ensures Settled(DrainRound(s, accepted, cfg))
  {
  }

  lemma TickKeeps(s: State, bytes: seq<byte>, accepted: bool, cfg: Config)
    requires Coherent(s)
    ensures Settled(Tick(s, bytes, accepted, cfg))
  {
    PassKeeps(s, s.framed, bytes, cfg);
    hide Pass, HasCommand, DrainRound;
    var t := Read(s, bytes, cfg);
    if HasCommand(t) {
      DrainOnce(t, accepted, cfg);
    }
  }

  // ----- reads may be split, except across an exit -----

  lemma {:induction false} PassConcat(s: State, framing: bool, a: seq<byte>, b: seq<byte>, cfg: Config)
    ensures Pass(s, framing, a + b, cfg) ==
            var (t, f) := Pass(s, framing, a, cfg);
            Pass(t, f, b, cfg)
    decreases |a|
  {
    hide TextByte, FramedByte;
    if a == [] {
      assert a + b == b;
    } else {
      assert (a + b)[0] == a[0] && (a + b)[1..] == a[1..] + b;
      if framing {
        PassConcat(FramedByte(s, a[0], cfg), true, a[1..], b, cfg);
      } else {
        var t := TextByte(s, a[0], cfg);
        PassConcat(t, t.framed, a[1..], b, cfg);
      }
    }
  }

  /** The pass is still in the framed loop although the mode is text again. */
  ghost predicate OutOfStep(s: State, a: seq<byte>, cfg: Config) {
    var (t, f) := Pass(s, s.framed, a, cfg);
    f && !t.framed
  }

  /** Byte `k` of a read, taken in the framed loop, completes an exit request, and a handler is set. */
  ghost predicate ExitAt(s: State, a: seq<byte>, k: nat, cfg: Config) {
    && k < |a| && cfg.handler
    && var (t, f) := Pass(s, s.framed, a[..k], cfg);
       f && Exits(Feed(t.decoder, a[k], cfg.maxPayload).1)
  }

  predicate Exits(r: Result) {
    r.Ready? && r.msgType == EXIT_HANDSHAKE
  }

  /** An exit request was read on the way. */
  ghost predicate ExitRead(s: State, a: seq<byte>, cfg: Config) {
    exists k: nat :: ExitAt(s, a, k, cfg)
  }

  lemma FramedByteExits(s: State, b: byte, cfg: Config)
    ensures FramedByte(s, b, cfg).framed <==> s.framed && !(cfg.handler && Exits(Feed(s.decoder, b, cfg.maxPayload).1))
  {
    hide Feed, GoodHello;
  }

  lemma ExitAtPrefix(s: State, a: seq<byte>, x: byte, k: nat, cfg: Config)
    requires k < |a|
    ensures ExitAt(s, a + [x], k, cfg) <==> ExitAt(s, a, k, cfg)
  {
    hide Pass, Feed;
    assert (a + [x])[..k] == a[..k];
  }

  lemma ExitReadSnoc(s: State, a: seq<byte>, x: byte, cfg: Config)
    ensures ExitRead(s, a + [x], cfg) <==> ExitRead(s, a, cfg) || ExitAt(s, a + [x], |a|, cfg)
  {
    forall k: nat | k < |a|
      ensures ExitAt(s, a + [x], k, cfg) <==> ExitAt(s, a, k, cfg)
    {
      ExitAtPrefix(s, a, x, k, cfg);
    }
    ExitAtInside(s, a, cfg);
    ExitAtInside(s, a + [x], cfg);
    hide ExitAt;
  }

  lemma ExitAtInside(s: State, a: seq<byte>, cfg: Config)
    ensures forall k: nat :: ExitAt(s, a, k, cfg) ==> k < |a|
  {
  }

  /** A pass falls out of step with the mode exactly by reading an exit request. */
  lemma {:induction false} OutOfStepExactly(s: State, a: seq<byte>, cfg: Config)
    ensures OutOfStep(s, a, cfg) <==> ExitRead(s, a, cfg)
    decreases |a|
  {
    hide TextByte, FramedByte, Feed, ExitRead, ExitAt;
    if a == [] {
      assert !ExitRead(s, a, cfg) by { NothingRead(s, cfg); }
    } else {
      var n := |a| - 1;
      var x := a[n];
      assert a == a[..n] + [x];
      OutOfStepExactly(s, a[..n], cfg);
      ExitReadSnoc(s, a[..n], x, cfg);
      PassSnoc(s, s.framed, a[..n], x, cfg);
      var (t, f) := Pass(s, s.framed, a[..n], cfg);
      ExitAtLast(s, a[..n], x, cfg);
      FramedByteExits(t, x, cfg);
      PassLeads(s, s.framed, a[..n], cfg);
    }
  }

  lemma NothingRead(s: State, cfg: Config)
    ensures !ExitRead(s, [], cfg)
  {
  }

  lemma ExitAtLast(s: State, a: seq<byte>, x: byte, cfg: Config)
    ensures var (t, f) := Pass(s, s.framed, a, cfg);
            ExitAt(s, a + [x], |a|, cfg) <==> cfg.handler && f && Exits(Feed(t.decoder, x, cfg.maxPayload).1)
  {
    hide Pass, Feed;
    assert (a + [x])[..|a|] == a;
  }

  /** The loop follows the mode into framed mode. */
  lemma {:induction false} PassLeads(s: State, framing: bool, a: seq<byte>, cfg: Config)
    requires s.framed ==> framing
    ensures var (t, f) := Pass(s, framing, a, cfg); t.framed ==> f
    decreases |a|
  {
    hide TextByte, FramedByte;
    if a != [] {
      if framing {
        PassLeads(FramedByte(s, a[0], cfg), true, a[1..], cfg);
      } else {
        var t := TextByte(s, a[0], cfg);
        PassLeads(t, t.framed, a[1..], cfg);
      }
    }
  }

  /** The two loops treat the next byte differently, whatever it is. */
  lemma LoopsDiffer(s: State, x: byte, cfg: Config)
    requires Coherent(s) && !s.framed && s.probe == None && cfg.maxLine >= 1
    ensures FramedByte(s, x, cfg) != TextByte(s, x, cfg)
  {
    hide Finish, Dispatch, MaxCobs;
    if x == DELIMITER {
      FramedByteKeeps(s, x, cfg);
    } else {
      var d := Feed(s.decoder, x, cfg.maxPayload).0;
      assert TextByte(s, x, cfg).decoder == s.decoder;
      assert |d.acc| != |s.decoder.acc| by { MaxCobsPositive(cfg.maxPayload); }
    }
  }

  lemma MaxCobsPositive(maxPayload: nat)
    ensures MaxCobs(maxPayload) > 6
  {
  }

  /**
   * A read of one more byte is the same as a separate read of it if and only if no exit
   * request was read before it: after one, the rest of the buffer still goes to the frame
   * decoder.
   */
  lemma SplitExactly(s: State, a: seq<byte>, x: byte, cfg: Config)
    requires Coherent(s) && cfg.maxLine >= 1
    ensures Read(s, a + [x], cfg) == Read(Read(s, a, cfg), [x], cfg) <==> !ExitRead(s, a, cfg)
  {
    hide TextByte, FramedByte, HasCommand, ExitRead;
    OutOfStepExactly(s, a, cfg);
    PassLeads(s, s.framed, a, cfg);
    PassConcat(s, s.framed, a, [x], cfg);
    PassKeeps(s, s.framed, a, cfg);
    var (t, f) := Pass(s, s.framed, a, cfg);
    PassOne(t, f, x, cfg);
    PassOne(t, t.framed, x, cfg);
    if f != t.framed {
      LoopsDiffer(t, x, cfg);
    }
  }

  lemma PassOne(s: State, framing: bool, x: byte, cfg: Config)
    ensures Pass(s, framing, [x], cfg).0 == if framing then FramedByte(s, x, cfg) else TextByte(s, x, cfg)
  {
    hide TextByte, FramedByte;
    assert [x][1..] == [];
  }

  /** A handshake behind an exit in the same read is answered, and yet the mode stays text. */
  lemma HandshakeAfterExitIsLost(s: State, q: byte, r: byte, cfg: Config)
    requires s.framed && s.decoder.acc == [] && cfg.handler && cfg.maxPayload >= 6
    ensures var t := Read(s, Wire(EXIT_HANDSHAKE, q, 0, []) + Wire(HANDSHAKE_REQ, r, 6, HELLO), cfg);
            && !t.framed
            && t.sent == s.sent + [Sent(Message(ACK, q, [EXIT_HANDSHAKE])), Sent(Message(HANDSHAKE_RESP, r, HELLO))]
  {
    hide Wire, Pass;
    var a, b := Message(EXIT_HANDSHAKE, q, []), Message(HANDSHAKE_REQ, r, HELLO);
    PassConcat(s, true, WireOf(a), WireOf(b), cfg);
    PassMessage(s, a, cfg);
    var d := FeedAll(s.decoder, WireOf(a), cfg.maxPayload).0;
    var t := Handle(s.(decoder := d), Ready(a.msgType, a.seqNum, a.payload), cfg);
    PassMessage(t, b, cfg);
    assert GoodHello(HELLO);
  }

  /** A command behind an exit request in the same read is left in its slot although the mode is text. */
  lemma CommandAfterExitIsLeft(s: State, q: byte, r: byte, p: seq<byte>, cfg: Config)
    requires s.framed && s.decoder.acc == [] && cfg.handler && cfg.maxPayload >= 6 && |p| == 6
    ensures var t := Read(s, Wire(EXIT_HANDSHAKE, q, 0, []) + Wire(COMMAND, r, 6, p), cfg);
            && !t.framed && t.command == Some(Command(p[0], p[1], p[2..])) && t.commandSeq == r && t.probe == s.probe
            && !t.hasPending && t.sent == s.sent + [Sent(Message(ACK, q, [EXIT_HANDSHAKE]))]
  {
    hide Wire, Pass;
    var a, b := Message(EXIT_HANDSHAKE, q, []), Message(COMMAND, r, p);
    PassConcat(s, true, WireOf(a), WireOf(b), cfg);
    PassMessage(s, a, cfg);
    var d := FeedAll(s.decoder, WireOf(a), cfg.maxPayload).0;
    var t := Handle(s.(decoder := d), Ready(a.msgType, a.seqNum, a.payload), cfg);
    PassMessage(t, b, cfg);
  }

  /** A whole frame in the framed loop. */
  lemma PassMessage(s: State, m: Message, cfg: Config)
    requires s.decoder.acc == [] && Deliverable(m.payload, cfg.maxPayload)
    ensures var e := FeedAll(s.decoder, WireOf(m), cfg.maxPayload).0;
            && e.acc == []
            && Pass(s, true, WireOf(m), cfg) ==
               (Handle(s.(decoder := e), Ready(m.msgType, m.seqNum, m.payload), cfg), true)
  {
    hide WireOf, Handle, Pass, FeedAll, Deliverable, Feed;
    var w := WireOf(m);
    MessageDelivered(s.decoder, m, cfg.maxPayload);
    WireOfIsLong(m);
    var n := |w| - 1;
    assert w == w[..n] + [w[n]];
    FeedAllConcat(s.decoder, w[..n], [w[n]], cfg.maxPayload);
    var (d, rs) := FeedAll(s.decoder, w[..n], cfg.maxPayload);
    FeedOne(d, w[n], cfg.maxPayload);
    var whole := FeedAll(s.decoder, w, cfg.maxPayload).1;
    assert forall k :: 0 <= k < n ==> rs[k] == whole[k];
    assert Feed(d, w[n], cfg.maxPayload).1 == whole[n];
    assert rs == Silence(n);
    SilentPass(s, w[..n], cfg);
    PassConcat(s, true, w[..n], [w[n]], cfg);
    LastFramedByte(s.(decoder := d), w[n], cfg);
  }

  /** What a frame read in framed mode makes the device send. */
  function Replies(m: Message, cfg: Config): seq<Output> {
    if m.msgType == HEARTBEAT then [Sent(Message(HEARTBEAT, m.seqNum, []))]
    else if m.msgType == METRICS_REQ && |cfg.snapshot| <= cfg.maxPayload then
      [Sent(Message(METRICS_RESP, m.seqNum, cfg.snapshot))]
    else if m.msgType == HANDSHAKE_REQ && GoodHello(m.payload) then
      [Sent(Message(HANDSHAKE_RESP, m.seqNum, HELLO))]
    else if m.msgType == EXIT_HANDSHAKE && cfg.maxPayload >= 1 then
      [Sent(Message(ACK, m.seqNum, [EXIT_HANDSHAKE]))]
    else []
  }

  /**
   * One frame in framed mode, over the wire: a heartbeat comes back, a metrics request gets the
   * snapshot if it fits, a handshake its response, an exit its acknowledgement, each under the
   * frame's own number, and everything else is silent. Only an exit changes the mode, and only
   * a command of six bytes fills the slot.
   */
  lemma FrameReplies(s: State, m: Message, cfg: Config)
    requires s.framed && s.decoder.acc == [] && cfg.handler && Deliverable(m.payload, cfg.maxPayload)
    ensures var t := Read(s, WireOf(m), cfg);
            && t.sent == s.sent + Replies(m, cfg)
            && (t.framed <==> m.msgType != EXIT_HANDSHAKE)
            && (t.framed ==> t.parser == s.parser && t.hasPending == s.hasPending)
            && (!t.framed ==> t.parser == Parser([], None) && t.command.None? && !t.hasPending)
            && (m.msgType == COMMAND && |m.payload| == 6 ==>
                  t.command == Some(Command(m.payload[0], m.payload[1], m.payload[2..])) && t.commandSeq == m.seqNum)
            && (t.framed && !(m.msgType == COMMAND && |m.payload| == 6) ==>
                  t.command == s.command && t.commandSeq == s.commandSeq)
  {
    hide WireOf, Pass;
    PassMessage(s, m, cfg);
    assert s.sent + [] == s.sent;
  }

  lemma WireOfIsLong(m: Message)
    ensures |WireOf(m)| > 0
  {
    hide Encode, Raw;
  }

  lemma LastFramedByte(s: State, b: byte, cfg: Config)
    ensures var (e, r) := Feed(s.decoder, b, cfg.maxPayload);
            Pass(s, true, [b], cfg) == (Handle(s.(decoder := e), r, cfg), true)
  {
    hide Feed, Handle;
    assert [b][1..] == [];
  }

  lemma {:induction false} SilentPass(s: State, bytes: seq<byte>, cfg: Config)
    requires FeedAll(s.decoder, bytes, cfg.maxPayload).1 == Silence(|bytes|)
    ensures Pass(s, true, bytes, cfg) == (s.(decoder := FeedAll(s.decoder, bytes, cfg.maxPayload).0), true)
    decreases |bytes|
  {
    hide Feed;
    if bytes == [] {
    } else {
      var (e, r) := Feed(s.decoder, bytes[0], cfg.maxPayload);
      var rest := FeedAll(e, bytes[1..], cfg.maxPayload).1;
      assert [r] + rest == Silence(|bytes|);
      assert r == Silence(|bytes|)[0];
      FeedAllConcat(e, bytes[1..], [], cfg.maxPayload);
      assert rest == Silence(|bytes|)[1..];
      assert Silence(|bytes|)[1..] == Silence(|bytes| - 1);
      SilentPass(s.(decoder := e), bytes[1..], cfg);
    }
  }

  lemma PassNothing(s: State, framing: bool, cfg: Config)
    ensures Pass(s, framing, [], cfg) == (s, framing)
  {
  }

  lemma PassSnoc(s: State, framing: bool, a: seq<byte>, x: byte, cfg: Config)
    ensures Pass(s, framing, a + [x], cfg) ==
            var (t, f) := Pass(s, framing, a, cfg);
            if f then (FramedByte(t, x, cfg), true)
            else
              var u := TextByte(t, x, cfg);
              (u, u.framed)
  {
    hide TextByte, FramedByte;
    PassConcat(s, framing, a, [x], cfg);
    assert [x][1..] == [];
  }

  lemma ReadKeeps(s: State, bytes: seq<byte>, cfg: Config)
    requires Coherent(s)
    ensures Coherent(Read(s, bytes, cfg))
  {
    PassKeeps(s, s.framed, bytes, cfg);
    hide Pass;
  }

  lemma TryHandshakeStays(s: State, seg: seq<byte>, cfg: Config)
    ensures !TryHandshake(s, seg, cfg).1 ==> TryHandshake(s, seg, cfg).0 == s
    ensures TryHandshake(s, seg, cfg).1 ==> TryHandshake(s, seg, cfg).0.framed
  {
    hide Probed, GoodHello;
  }

  lemma FeedTextStays(s: State, b: byte, cfg: Config)
    ensures FeedText(s, b, cfg).framed == s.framed && FeedText(s, b, cfg).probe == s.probe
  {
  }

  // ----- which bytes open framed mode -----

  /** The kept part of the probed bytes is the encoding of a handshake request with the right magic. */
  ghost predicate Knocks(seg: seq<byte>, q: byte, p: seq<byte>, cfg: Config) {
    && cfg.handler && cfg.maxPayload >= 6 && GoodHello(p)
    && Kept(seg, MaxCobs(cfg.maxPayload)) == Encode(Raw(HANDSHAKE_REQ, q, 6, p))
  }

  lemma ProbedExactly(seg: seq<byte>, q: byte, p: seq<byte>, cfg: Config)
    requires ZeroFree(seg) && |seg| <= MAX_PROBE && |p| == 6
    ensures Probed(seg, cfg) == Ready(HANDSHAKE_REQ, q, p) <==>
            cfg.maxPayload >= 6 && Kept(seg, MaxCobs(cfg.maxPayload)) == Encode(Raw(HANDSHAKE_REQ, q, 6, p))
  {
    hide FeedAll, MaxCobs, Raw, Encode, Decode, Kept, Finish;
    var kept := Kept(seg, MaxCobs(cfg.maxPayload));
    OverflowKeeps(FRESH_DECODER, seg, cfg.maxPayload);
    KeptIsShort(seg, MaxCobs(cfg.maxPayload));
    FinishExactly(FRESH_DECODER.(acc := kept), cfg.maxPayload, HANDSHAKE_REQ, q, p);
    ShortIsNotFull(kept);
    DecodesToExactly(kept, Raw(HANDSHAKE_REQ, q, 6, p));
    EncodeShape(Raw(HANDSHAKE_REQ, q, 6, p));
  }

  lemma {:induction false} ShortIsNotFull(y: seq<byte>)
    requires |y| <= MAX_PROBE
    ensures !EndsFull(y)
    decreases |y|
  {
    if y != [] && (y[0] as int) < |y| && y[0] > 0 {
      ShortIsNotFull(y[y[0]..]);
    }
  }

  /** A byte in text mode opens framed mode exactly when it is the delimiter of a request probed so far. */
  lemma TextByteOpensExactly(s: State, b: byte, cfg: Config)
    requires Coherent(s) && !s.framed
    ensures TextByte(s, b, cfg).framed <==>
            b == DELIMITER && s.probe.Some? && exists q: byte, p: seq<byte> :: Knocks(s.probe.value, q, p, cfg)
  {
    hide Probed, Kept, MaxCobs, Raw, Encode, GoodHello;
    if b == DELIMITER && s.probe.Some? {
      var seg := s.probe.value;
      ProbeOpensExactly(s, seg, cfg);
    }
  }

  lemma ProbeOpensExactly(s: State, seg: seq<byte>, cfg: Config)
    requires ZeroFree(seg) && |seg| <= MAX_PROBE
    ensures TryHandshake(s, seg, cfg).1 <==> exists q: byte, p: seq<byte> :: Knocks(seg, q, p, cfg)
    ensures !TryHandshake(s, seg, cfg).1 ==> TryHandshake(s, seg, cfg).0 == s
    ensures seg == [] ==> !TryHandshake(s, seg, cfg).1
  {
    hide Probed, Kept, MaxCobs, Raw, Encode;
    forall q: byte, p: seq<byte> | |p| == 6
      ensures Probed(seg, cfg) == Ready(HANDSHAKE_REQ, q, p) <==>
              cfg.maxPayload >= 6 && Kept(seg, MaxCobs(cfg.maxPayload)) == Encode(Raw(HANDSHAKE_REQ, q, 6, p))
    {
      ProbedExactly(seg, q, p, cfg);
    }
    match Probed(seg, cfg) {
      case Ready(t, q, p) =>
        if TryHandshake(s, seg, cfg).1 {
          assert Knocks(seg, q, p, cfg);
        }
      case _ =>
    }
    if seg == [] {
      EmptyProbe(cfg);
    }
  }

  lemma EmptyProbe(cfg: Config)
    ensures Probed([], cfg) == Incomplete
  {
  }

  /** The probe after a stream read in text mode: the bytes since the last zero, unless there were too many. */
  function Sync(stream: seq<byte>): Option<seq<byte>> {
    if stream == [] then None
    else
      var b := stream[|stream| - 1];
      if b == DELIMITER then Some([])
      else match Sync(stream[..|stream| - 1])
        case None => None
        case Some(seg) => if |seg| < MAX_PROBE then Some(seg + [b]) else None
  }

  /** `seg` is what follows the last zero of `stream`. */
  ghost predicate SinceZero(stream: seq<byte>, seg: seq<byte>) {
    && |seg| < |stream| && |seg| <= 64 && ZeroFree(seg)
    && stream == stream[..|stream| - |seg| - 1] + [DELIMITER] + seg
  }

  lemma SinceZeroSnoc(stream: seq<byte>, seg: seq<byte>, b: byte)
    requires b != DELIMITER && |seg| < MAX_PROBE
    ensures SinceZero(stream + [b], seg + [b]) <==> SinceZero(stream, seg)
  {
    var whole, n := stream + [b], |stream| - |seg| - 1;
    if SinceZero(stream, seg) {
      assert whole[..n] == stream[..n];
      assert whole == stream[..n] + [DELIMITER] + (seg + [b]);
    }
    if SinceZero(whole, seg + [b]) {
      var head := whole[..n] + [DELIMITER];
      assert whole[..|stream|] == head + seg;
      assert stream == whole[..|stream|] && whole[..n] == stream[..n];
      assert forall i :: 0 <= i < |seg| ==> seg[i] == (seg + [b])[i];
    }
  }

  lemma SinceZeroEnds(stream: seq<byte>, seg: seq<byte>)
    requires SinceZero(stream, seg)
    ensures stream[|stream| - 1] == if seg == [] then DELIMITER else seg[|seg| - 1]
  {
  }

  lemma {:induction false} SyncExactly(stream: seq<byte>, seg: seq<byte>)
    ensures Sync(stream) == Some(seg) <==> SinceZero(stream, seg)
    decreases |stream|
  {
    hide SinceZero;
    if stream == [] {
      assert !SinceZero(stream, seg) by { NothingSinceZero(seg); }
    } else {
      var n := |stream| - 1;
      var b := stream[n];
      assert stream == stream[..n] + [b];
      if SinceZero(stream, seg) {
        SinceZeroEnds(stream, seg);
      }
      if b == DELIMITER {
        DelimiterSinceZero(stream[..n], seg);
      } else if seg != [] {
        var init := seg[..|seg| - 1];
        assert seg == init + [seg[|seg| - 1]];
        SyncExactly(stream[..n], init);
        if SinceZero(stream, seg) {
          SinceZeroShort(stream, seg);
        }
        if |init| < MAX_PROBE {
          SinceZeroSnoc(stream[..n], init, b);
        }
      }
    }
  }

  lemma NothingSinceZero(seg: seq<byte>)
    ensures !SinceZero([], seg)
  {
  }

  lemma SinceZeroShort(stream: seq<byte>, seg: seq<byte>)
    requires SinceZero(stream, seg)
    ensures |seg| <= MAX_PROBE
  {
  }

  lemma DelimiterSinceZero(init: seq<byte>, seg: seq<byte>)
    ensures SinceZero(init + [DELIMITER], seg) <==> seg == []
  {
    if seg == [] {
      assert (init + [DELIMITER])[..|init|] == init;
      assert init + [DELIMITER] == init + [DELIMITER] + [];
    } else if SinceZero(init + [DELIMITER], seg) {
      SinceZeroEnds(init + [DELIMITER], seg);
    }
  }

  /** The byte at `k` closes a segment, between two zeros of the stream, that is a handshake request. */
  ghost predicate HandshakeAt(stream: seq<byte>, k: nat, cfg: Config) {
    && k < |stream| && stream[k] == DELIMITER && Sync(stream[..k]).Some?
    && exists q: byte, p: seq<byte> :: Knocks(Sync(stream[..k]).value, q, p, cfg)
  }

  lemma HandshakeAtPrefix(a: seq<byte>, b: seq<byte>, k: nat, cfg: Config)
    requires k < |a|
    ensures HandshakeAt(a + b, k, cfg) <==> HandshakeAt(a, k, cfg)
  {
    hide Knocks, Sync;
    assert (a + b)[..k] == a[..k];
  }

  ghost predicate HandshakeFrom(stream: seq<byte>, from: nat, cfg: Config) {
    exists k: nat :: from <= k && HandshakeAt(stream, k, cfg)
  }

  /** In text mode, with the probe in step with what came before. */
  ghost predicate InStep(s: State, history: seq<byte>) {
    Coherent(s) && !s.framed && s.probe == Sync(history)
  }

  lemma TextByteSync(s: State, b: byte, history: seq<byte>, cfg: Config)
    requires InStep(s, history)
    ensures TextByte(s, b, cfg).framed <==> HandshakeAt(history + [b], |history|, cfg)
    ensures !TextByte(s, b, cfg).framed ==> InStep(TextByte(s, b, cfg), history + [b])
  {
    hide Knocks, TryHandshake, ParserFeed;
    assert (history + [b])[..|history|] == history;
    TextByteOpensExactly(s, b, cfg);
    TextByteKeeps(s, b, cfg);
    if s.probe.Some? {
      ProbeOpensExactly(s, s.probe.value, cfg);
    }
  }

  lemma HandshakeStep(history: seq<byte>, b: byte, rest: seq<byte>, cfg: Config)
    ensures history + ([b] + rest) == history + [b] + rest
    ensures HandshakeFrom(history + ([b] + rest), |history|, cfg) <==>
            HandshakeAt(history + [b], |history|, cfg) || HandshakeFrom(history + [b] + rest, |history| + 1, cfg)
  {
    hide HandshakeAt;
    var stream := history + [b] + rest;
    assert history + ([b] + rest) == stream;
    HandshakeAtPrefix(history + [b], rest, |history|, cfg);
  }

  lemma {:induction false} PassSync(s: State, history: seq<byte>, bytes: seq<byte>, cfg: Config)
    requires InStep(s, history)
    ensures var (t, f) := Pass(s, false, bytes, cfg);
            && (f <==> HandshakeFrom(history + bytes, |history|, cfg))
            && (!f ==> InStep(t, history + bytes))
    decreases |bytes|
  {
    hide TextByte, FramedByte, HandshakeAt, Coherent, Sync;
    if bytes == [] {
      assert history + bytes == history;
      NothingBeyond(history, cfg);
    } else {
      var t := TextByte(s, bytes[0], cfg);
      assert bytes == [bytes[0]] + bytes[1..];
      HandshakeStep(history, bytes[0], bytes[1..], cfg);
      TextByteSync(s, bytes[0], history, cfg);
      if t.framed {
        FramedLoopStays(t, bytes[1..], cfg);
      } else {
        PassSync(t, history + [bytes[0]], bytes[1..], cfg);
      }
    }
  }

  lemma NothingBeyond(stream: seq<byte>, cfg: Config)
    ensures !HandshakeFrom(stream, |stream|, cfg)
  {
  }

  lemma {:induction false} FramedLoopStays(s: State, bytes: seq<byte>, cfg: Config)
    ensures Pass(s, true, bytes, cfg).1
    decreases |bytes|
  {
    hide FramedByte;
    if bytes != [] {
      FramedLoopStays(FramedByte(s, bytes[0], cfg), bytes[1..], cfg);
    }
  }

  /** Some read of the run reaches the framed loop. */
  ghost predicate EverFramed(s: State, inputs: seq<Input>, cfg: Config)
    decreases |inputs|
  {
    inputs != [] &&
    (Pass(s, s.framed, inputs[0].bytes, cfg).1 ||
     EverFramed(Tick(s, inputs[0].bytes, inputs[0].accepted, cfg), inputs[1..], cfg))
  }

  lemma TickSync(s: State, history: seq<byte>, bytes: seq<byte>, accepted: bool, cfg: Config)
    requires InStep(s, history) && !Pass(s, false, bytes, cfg).1
    ensures InStep(Tick(s, bytes, accepted, cfg), history + bytes)
  {
    PassSync(s, history, bytes, cfg);
    TickKeeps(s, bytes, accepted, cfg);
    hide Pass, HandshakeFrom, Coherent;
  }

  lemma {:induction false} OpensFrom(s: State, history: seq<byte>, inputs: seq<Input>, cfg: Config)
    requires InStep(s, history)
    ensures EverFramed(s, inputs, cfg) <==> HandshakeFrom(history + Received(inputs), |history|, cfg)
    decreases |inputs|
  {
    hide Pass, Tick, HandshakeAt, InStep;
    if inputs == [] {
      assert history + Received(inputs) == history;
      NothingBeyond(history, cfg);
    } else {
      var bytes, rest := inputs[0].bytes, Received(inputs[1..]);
      assert !s.framed by { TextNow(s, history); }
      PassSync(s, history, bytes, cfg);
      assert history + (bytes + rest) == history + bytes + rest;
      LaterHandshake(history, bytes, rest, cfg);
      if !Pass(s, false, bytes, cfg).1 {
        TickSync(s, history, bytes, inputs[0].accepted, cfg);
        OpensFrom(Tick(s, bytes, inputs[0].accepted, cfg), history + bytes, inputs[1..], cfg);
      }
    }
  }

  lemma TextNow(s: State, history: seq<byte>)
    requires InStep(s, history)
    ensures !s.framed
  {
  }

  lemma LaterHandshake(history: seq<byte>, bytes: seq<byte>, rest: seq<byte>, cfg: Config)
    ensures HandshakeFrom(history + bytes + rest, |history|, cfg) <==>
            || HandshakeFrom(history + bytes, |history|, cfg)
            || HandshakeFrom(history + bytes + rest, |history + bytes|, cfg)
  {
    var seen := history + bytes;
    forall k: nat | k < |seen|
      ensures HandshakeAt(seen + rest, k, cfg) <==> HandshakeAt(seen, k, cfg)
    {
      HandshakeAtPrefix(seen, rest, k, cfg);
    }
    OutsideIsNone(seen, cfg);
    hide HandshakeAt;
  }

  lemma OutsideIsNone(stream: seq<byte>, cfg: Config)
    ensures forall k: nat :: HandshakeAt(stream, k, cfg) ==> k < |stream|
  {
  }

  /**
   * From power-on, or whenever else the mode is text and no probe is in progress, framed mode
   * is reached if and only if somewhere in the received stream the bytes between two zeros are
   * a handshake request with the right magic, however the stream was cut into reads.
   */
  lemma OpensExactly(s: State, inputs: seq<Input>, cfg: Config)
    requires Coherent(s) && !s.framed && s.probe == None
    ensures EverFramed(s, inputs, cfg) <==> exists k: nat :: HandshakeAt(Received(inputs), k, cfg)
  {
    hide EverFramed, HandshakeAt, Coherent;
    OpensFrom(s, [], inputs, cfg);
    assert [] + Received(inputs) == Received(inputs);
  }

  // ----- the handshake, however the reads cut it -----

  /** After `j` bytes of zero, segment, zero, before the last one. */
  function Listening(s: State, seg: seq<byte>, j: nat): State
    requires j <= |seg| + 1
  {
    if j == 0 then s else s.(probe := Some(seg[..j - 1]))
  }

  function Knock(seg: seq<byte>): seq<byte> {
    [DELIMITER] + seg + [DELIMITER]
  }

  lemma {:induction false} PassListens(s: State, seg: seq<byte>, i: nat, j: nat, cfg: Config)
    requires !s.framed && s.probe == None && ZeroFree(seg) && |seg| <= MAX_PROBE
    requires i <= j <= |seg| + 1
    ensures Pass(Listening(s, seg, i), false, Knock(seg)[i..j], cfg) == (Listening(s, seg, j), false)
    decreases j - i
  {
    hide TryHandshake, ParserFeed;
    var bytes := Knock(seg)[i..j];
    if i < j {
      assert bytes[0] == Knock(seg)[i] && bytes[1..] == Knock(seg)[i + 1..j];
      if i > 0 {
        assert bytes[0] == seg[i - 1] && seg[..i] == seg[..i - 1] + [seg[i - 1]];
      }
      assert TextByte(Listening(s, seg, i), bytes[0], cfg) == Listening(s, seg, i + 1);
      PassListens(s, seg, i + 1, j, cfg);
    }
  }

  lemma RequestOpens(s: State, q: byte, p: seq<byte>, cfg: Config)
    requires cfg.handler && cfg.maxPayload >= 6 && GoodHello(p)
    ensures var seg := Encode(Raw(HANDSHAKE_REQ, q, 6, p));
            && |seg| <= 14 && ZeroFree(seg) && seg != []
            && TryHandshake(s, seg, cfg) == (Enter(Send(s, HANDSHAKE_RESP, q, HELLO, cfg)), true)
  {
    hide Raw, Encode, Kept, Probed;
    var raw := Raw(HANDSHAKE_REQ, q, 6, p);
    RawParts(HANDSHAKE_REQ, q, 6, p);
    EncodeShape(raw);
    KeptWhole(Encode(raw), cfg.maxPayload);
    ProbedExactly(Encode(raw), q, p, cfg);
  }

  lemma KeptWhole(seg: seq<byte>, maxPayload: nat)
    requires |seg| <= MaxEncodedLen(12) && maxPayload >= 6
    ensures Kept(seg, MaxCobs(maxPayload)) == seg
  {
  }

  lemma {:induction false} QuietTicks(s: State, inputs: seq<Input>, cfg: Config)
    requires Settled(s) && Received(inputs) == []
    ensures Ticks(s, inputs, cfg) == s && Pushes(s, inputs, cfg) == []
    decreases |inputs|
  {
    if inputs != [] {
      assert inputs[0].bytes == [] && Received(inputs[1..]) == [];
      QuietTicks(s, inputs[1..], cfg);
    }
  }

  /** The state the handshake leaves, before the drain of its tick. */
  function Opened(s: State, q: byte, cfg: Config): State {
    Enter(Send(s, HANDSHAKE_RESP, q, HELLO, cfg))
  }

  lemma OpeningTick(s: State, q: byte, p: seq<byte>, j: nat, accepted: bool, cfg: Config)
    requires cfg.handler && cfg.maxPayload >= 6 && GoodHello(p)
    requires !s.framed && s.probe == None
    requires var seg := Encode(Raw(HANDSHAKE_REQ, q, 6, p)); j <= |seg| + 1 && |seg| <= MAX_PROBE
    ensures var seg := Encode(Raw(HANDSHAKE_REQ, q, 6, p));
            && Read(Listening(s, seg, j), Knock(seg)[j..], cfg) == Opened(s, q, cfg)
            && Tick(Listening(s, seg, j), Knock(seg)[j..], accepted, cfg) == Drained(Opened(s, q, cfg), accepted, cfg)
  {
    hide Raw, Encode, DrainRound, HasCommand, TryHandshake, Send, Pass, Knock;
    var seg := Encode(Raw(HANDSHAKE_REQ, q, 6, p));
    var n := |seg| + 1;
    RequestOpens(Listening(s, seg, n), q, p, cfg);
    KnockLen(seg);
    KnockSplits(seg, j);
    PassListens(s, seg, j, n, cfg);
    PassConcat(Listening(s, seg, j), false, Knock(seg)[j..n], [DELIMITER], cfg);
    PassOne(Listening(s, seg, n), false, DELIMITER, cfg);
    assert seg[..n - 1] == seg;
    OpenedAlike(s, seg, q, cfg);
  }

  lemma OpenedAlike(s: State, seg: seq<byte>, q: byte, cfg: Config)
    ensures Opened(s.(probe := Some(seg)), q, cfg) == Opened(s, q, cfg)
  {
  }

  lemma KnockSplits(seg: seq<byte>, j: nat)
    requires j <= |seg| + 1
    ensures Knock(seg)[j..] == Knock(seg)[j..|seg| + 1] + [DELIMITER]
  {
  }

  lemma {:induction false} HandshakeTicks(s: State, q: byte, p: seq<byte>, j: nat, inputs: seq<Input>, cfg: Config)
    requires cfg.handler && cfg.maxPayload >= 6 && GoodHello(p)
    requires Settled(s) && !s.framed && s.probe == None
    requires var seg := Encode(Raw(HANDSHAKE_REQ, q, 6, p));
             j <= |seg| + 1 && |seg| <= MAX_PROBE && ZeroFree(seg) && |Knock(seg)| == |seg| + 2 &&
             Received(inputs) == Knock(seg)[j..]
    ensures var seg := Encode(Raw(HANDSHAKE_REQ, q, 6, p));
            var t := Ticks(Listening(s, seg, j), inputs, cfg);
            exists v :: t == Drained(Opened(s, q, cfg), v, cfg) &&
                        Pushes(Listening(s, seg, j), inputs, cfg) == Offered(Opened(s, q, cfg), v)
    decreases |inputs|
  {
    hide Raw, Encode, DrainRound, Pass, Enter, Send, GoodHello, Drained, Tick, Coherent, Opened, Knock, Offered, Read;
    var seg := Encode(Raw(HANDSHAKE_REQ, q, 6, p));
    assert inputs != [];
    var bytes := inputs[0].bytes;
    var k := j + |bytes|;
    var rest := Received(inputs[1..]);
    assert bytes + rest == Knock(seg)[j..];
    assert bytes == Knock(seg)[j..k] by { assert bytes == (bytes + rest)[..|bytes|]; }
    assert rest == Knock(seg)[k..] by { assert rest == (bytes + rest)[|bytes|..]; }
    if k <= |seg| + 1 {
      ListeningTick(s, seg, j, k, inputs[0].accepted, cfg);
      HandshakeTicks(s, q, p, k, inputs[1..], cfg);
    } else {
      assert bytes == Knock(seg)[j..];
      OpeningTick(s, q, p, j, inputs[0].accepted, cfg);
      OpenedSettles(s, q, inputs[0].accepted, cfg);
      var t := Drained(Opened(s, q, cfg), inputs[0].accepted, cfg);
      QuietTicks(t, inputs[1..], cfg);
      assert Offered(Opened(s, q, cfg), inputs[0].accepted) + [] == Offered(Opened(s, q, cfg), inputs[0].accepted);
      assert Ticks(Listening(s, seg, j), inputs, cfg) == t;
    }
  }

  lemma KnockLen(seg: seq<byte>)
    ensures |Knock(seg)| == |seg| + 2 && Knock(seg)[0..] == Knock(seg)
  {
  }

  lemma ListeningTick(s: State, seg: seq<byte>, i: nat, j: nat, accepted: bool, cfg: Config)
    requires Settled(s) && !s.framed && s.probe == None && ZeroFree(seg) && |seg| <= MAX_PROBE
    requires i <= j <= |seg| + 1
    ensures Tick(Listening(s, seg, i), Knock(seg)[i..j], accepted, cfg) == Listening(s, seg, j)
    ensures Offered(Read(Listening(s, seg, i), Knock(seg)[i..j], cfg), accepted) == []
  {
    hide Pass, DrainRound, Knock;
    PassListens(s, seg, i, j, cfg);
  }

  lemma OpenedSettles(s: State, q: byte, accepted: bool, cfg: Config)
    requires Coherent(s)
    ensures Settled(Drained(Opened(s, q, cfg), accepted, cfg))
  {
    hide DrainRound;
    var t := Opened(s, q, cfg);
    assert Coherent(t);
    if HasCommand(t) {
      DrainOnce(t, accepted, cfg);
    }
  }

  /** The answer to a command taken in framed mode. */
  function Receipt(seqNum: byte, c: Command, accepted: bool): Output {
    if accepted then Sent(Message(ACK, seqNum, [c.id])) else Sent(Message(NACK, seqNum, [c.id, c.device] + c.value))
  }

  /** What a run that opens framed mode leaves behind: its one response, and the fate of a command left over. */
  ghost predicate HandshakeDone(s: State, t: State, pushed: seq<Command>, q: byte) {
    var response := Sent(Message(HANDSHAKE_RESP, q, HELLO));
    && t.framed && t.parser == s.parser && t.decoder == FRESH_DECODER && t.probe == None && t.command == None
    && match s.command
       case None => t.sent == s.sent + [response] && pushed == []
       case Some(c) =>
         || (t.sent == s.sent + [response, Receipt(s.commandSeq, c, true)] && pushed == [c])
         || (t.sent == s.sent + [response, Receipt(s.commandSeq, c, false)] && pushed == [])
  }

  /**
   * The handshake. In text mode, with a handler set and no probe in progress, a zero byte
   * and a handshake request, cut into reads in any way, end in framed mode with one response
   * that echoes the sequence number; the line parser sees none of it. It is the only output
   * if and only if no command was left over from an earlier framed session; one that was is
   * then offered to the queue and answered, after the response.
   */
  lemma HandshakeOpens(s: State, q: byte, p: seq<byte>, inputs: seq<Input>, cfg: Config)
    requires cfg.handler && cfg.maxPayload >= 6 && GoodHello(p)
    requires Settled(s) && !s.framed && s.probe == None
    requires Received(inputs) == [DELIMITER] + Wire(HANDSHAKE_REQ, q, 6, p)
    ensures HandshakeDone(s, Ticks(s, inputs, cfg), Pushes(s, inputs, cfg), q)
    ensures Ticks(s, inputs, cfg).sent == s.sent + [Sent(Message(HANDSHAKE_RESP, q, HELLO))] <==> s.command == None
  {
    hide Raw, Encode, Ticks, Knock, Received, GoodHello, Pushes, HandshakeDone;
    var seg := Encode(Raw(HANDSHAKE_REQ, q, 6, p));
    RequestOpens(s, q, p, cfg);
    KnockLen(seg);
    assert Received(inputs) == Knock(seg)[0..] by { KnockIs(seg); }
    HandshakeTicks(s, q, p, 0, inputs, cfg);
    var v :| Ticks(s, inputs, cfg) == Drained(Opened(s, q, cfg), v, cfg) &&
             Pushes(s, inputs, cfg) == Offered(Opened(s, q, cfg), v);
    OpenedDrains(s, q, v, cfg);
    OneOutput(s, Ticks(s, inputs, cfg), Pushes(s, inputs, cfg), q);
  }

  lemma OpenedDrains(s: State, q: byte, v: bool, cfg: Config)
    requires Coherent(s) && cfg.maxPayload >= 6
    ensures HandshakeDone(s, Drained(Opened(s, q, cfg), v, cfg), Offered(Opened(s, q, cfg), v), q)
  {
    var response := Sent(Message(HANDSHAKE_RESP, q, HELLO));
    if s.command.Some? {
      var c := s.command.value;
      assert s.sent + [response] + [Receipt(s.commandSeq, c, v)] == s.sent + [response, Receipt(s.commandSeq, c, v)];
    }
  }

  lemma OneOutput(s: State, t: State, pushed: seq<Command>, q: byte)
    requires HandshakeDone(s, t, pushed, q)
    ensures t.sent == s.sent + [Sent(Message(HANDSHAKE_RESP, q, HELLO))] <==> s.command == None
  {
    assert s.command.Some? ==> |t.sent| == |s.sent| + 2;
  }

  /**
   * A command that arrives behind an exit request in the same read is neither answered nor
   * queued in its own session: both happen after the handshake that opens the next one.
   */
  lemma LeftOverIsAnsweredLater(s: State, q: byte, r: byte, c: seq<byte>, accepted: bool,
                                h: byte, p: seq<byte>, inputs: seq<Input>, cfg: Config)
    requires Settled(s) && s.framed && s.decoder.acc == [] && |c| == 6
    requires cfg.handler && cfg.maxPayload >= 6 && GoodHello(p)
    requires Received(inputs) == [DELIMITER] + Wire(HANDSHAKE_REQ, h, 6, p)
    ensures var first := Input(Wire(EXIT_HANDSHAKE, q, 0, []) + Wire(COMMAND, r, 6, c), accepted);
            var cmd := Command(c[0], c[1], c[2..]);
            var before := s.sent + [Sent(Message(ACK, q, [EXIT_HANDSHAKE])), Sent(Message(HANDSHAKE_RESP, h, HELLO))];
            var t, pushed := Ticks(s, [first] + inputs, cfg), Pushes(s, [first] + inputs, cfg);
            || (t.sent == before + [Receipt(r, cmd, true)] && pushed == [cmd])
            || (t.sent == before + [Receipt(r, cmd, false)] && pushed == [])
  {
    hide Wire, Read, GoodHello, Received, Ticks, Pushes;
    var bytes := Wire(EXIT_HANDSHAKE, q, 0, []) + Wire(COMMAND, r, 6, c);
    var first := Input(bytes, accepted);
    CommandAfterExitIsLeft(s, q, r, c, cfg);
    var t := Read(s, bytes, cfg);
    assert Tick(s, bytes, accepted, cfg) == t && Offered(t, accepted) == [];
    TickKeeps(s, bytes, accepted, cfg);
    HandshakeOpens(t, h, p, inputs, cfg);
    FirstTick(s, first, inputs, cfg);
    var pushed := Pushes(t, inputs, cfg);
    assert [] + pushed == pushed;
  }

  lemma FirstTick(s: State, first: Input, inputs: seq<Input>, cfg: Config)
    ensures var t := Tick(s, first.bytes, first.accepted, cfg);
            && Ticks(s, [first] + inputs, cfg) == Ticks(t, inputs, cfg)
            && Pushes(s, [first] + inputs, cfg) ==
               Offered(Read(s, first.bytes, cfg), first.accepted) + Pushes(t, inputs, cfg)
  {
    hide Tick, Read, Offered;
    assert ([first] + inputs)[1..] == inputs;
  }

  lemma KnockIs(seg: seq<byte>)
    ensures Knock(seg) == [DELIMITER] + (seg + [DELIMITER])
  {
  }

  // ----- plain text -----

  lemma {:induction false} BareRead(s: State, bytes: seq<byte>, cfg: Config)
    requires !s.framed && s.probe == None && ZeroFree(bytes)
    ensures var (p, cmds) := ParserRun(s.parser, bytes, cfg);
            Pass(s, false, bytes, cfg) == (s.(parser := p, hasPending := s.hasPending || cmds != []), false)
    decreases |bytes|
  {
    if bytes != [] {
      BareRead(FeedText(s, bytes[0], cfg), bytes[1..], cfg);
    }
  }

  /** The last command completed is the pending one; the line does not depend on what was pending. */
  lemma {:induction false} ParserRunPends(p: Parser, bytes: seq<byte>, cfg: Config)
    ensures var (r, cmds) := ParserRun(p, bytes, cfg);
            && r.pending == (if cmds == [] then p.pending else Some(cmds[|cmds| - 1]))
            && ParserRun(p.(pending := None), bytes, cfg) == (if cmds == [] then r.(pending := None) else r, cmds)
    decreases |bytes|
  {
    if bytes != [] {
      var q := ParserFeed(p, bytes[0], cfg).0;
      ParserRunPends(q, bytes[1..], cfg);
      assert ParserFeed(p.(pending := None), bytes[0], cfg).0 == q ||
             ParserFeed(p.(pending := None), bytes[0], cfg).0 == q.(pending := None);
    }
  }

  lemma {:induction false} ParserRunConcat(p: Parser, a: seq<byte>, b: seq<byte>, cfg: Config)
    ensures ParserRun(p, a + b, cfg) ==
            var (q, cmds) := ParserRun(p, a, cfg);
            var (r, more) := ParserRun(q, b, cfg);
            (r, cmds + more)
    decreases |a|
  {
    hide ParserFeed;
    if a == [] {
      assert a + b == b && [] + ParserRun(p, b, cfg).1 == ParserRun(p, b, cfg).1;
    } else {
      assert (a + b)[0] == a[0] && (a + b)[1..] == a[1..] + b;
      var (q, done) := ParserFeed(p, a[0], cfg);
      ParserRunConcat(q, a[1..], b, cfg);
      var (r, cmds) := ParserRun(q, a[1..], cfg);
      var more := ParserRun(r, b, cfg).1;
      assert done && q.pending.Some? ==> [q.pending.value] + (cmds + more) == [q.pending.value] + cmds + more;
    }
  }

  // ----- which lines a stream holds, and which commands they are -----

  predicate Terminator(b: byte) {
    b == NEWLINE || b == RETURN
  }

  /** The lines of a stream, each ended by a terminator, and what follows the last one. */
  function Lines(bytes: seq<byte>): (seq<seq<byte>>, seq<byte>)
    decreases |bytes|
  {
    if bytes == [] then ([], [])
    else
      var b := bytes[|bytes| - 1];
      var (lines, rest) := Lines(bytes[..|bytes| - 1]);
      if Terminator(b) then (lines + [rest], []) else (lines, rest + [b])
  }

  /** Lines and their terminators written one after the other. */
  function Written(lines: seq<seq<byte>>, ends: seq<byte>): seq<byte>
    requires |lines| == |ends|
  {
    if lines == [] then []
    else Written(lines[..|lines| - 1], ends[..|ends| - 1]) + lines[|lines| - 1] + [ends[|ends| - 1]]
  }

  ghost predicate OneLine(l: seq<byte>) {
    forall i :: 0 <= i < |l| ==> !Terminator(l[i])
  }

  lemma {:induction false} LinesOfRest(bytes: seq<byte>, rest: seq<byte>)
    requires OneLine(rest)
    ensures Lines(bytes + rest) == (Lines(bytes).0, Lines(bytes).1 + rest)
    decreases |rest|
  {
    if rest == [] {
      assert bytes + rest == bytes && Lines(bytes).1 + rest == Lines(bytes).1;
    } else {
      var n := |rest| - 1;
      LinesOfRest(bytes, rest[..n]);
      assert (bytes + rest)[..|bytes| + n] == bytes + rest[..n];
      assert rest == rest[..n] + [rest[n]];
      assert Lines(bytes).1 + rest == Lines(bytes).1 + rest[..n] + [rest[n]];
    }
  }

  /** The lines are those that were written, whatever ended each, and in only one way. */
  lemma {:induction false} LinesAsWritten(lines: seq<seq<byte>>, ends: seq<byte>, rest: seq<byte>)
    requires |lines| == |ends| && OneLine(rest)
    requires forall i :: 0 <= i < |lines| ==> OneLine(lines[i]) && Terminator(ends[i])
    ensures Lines(Written(lines, ends) + rest) == (lines, rest)
    decreases |lines|
  {
    var all := Written(lines, ends);
    LinesOfRest(all, rest);
    assert [] + rest == rest;
    if lines != [] {
      var n := |lines| - 1;
      LinesAsWritten(lines[..n], ends[..n], lines[n]);
      assert all[..|all| - 1] == Written(lines[..n], ends[..n]) + lines[n];
      assert lines == lines[..n] + [lines[n]];
    }
  }

  /** The commands that lines spell. */
  function Spelled(lines: seq<seq<byte>>, cfg: Config): seq<Command>
    requires cfg.maxLine > 0
  {
    if lines == [] then []
    else
      var l := Kept(lines[|lines| - 1], cfg.maxLine - 1);
      Spelled(lines[..|lines| - 1], cfg) + if l != [] && cfg.parse(l).Some? then [cfg.parse(l).value] else []
  }

  /** The buffer of a line overflows as the decoder's accumulator does, one byte short of its size. */
  lemma {:induction false} KeptNext(line: seq<byte>, b: byte, max: nat)
    ensures Kept(line + [b], max) == if |Kept(line, max)| == max then [] else Kept(line, max) + [b]
    decreases |line|
  {
    if |line| > max {
      assert (line + [b])[max + 1..] == line[max + 1..] + [b];
      KeptNext(line[max + 1..], b, max);
    }
  }

  lemma ParserOne(p: Parser, b: byte, cfg: Config)
    ensures var (q, done) := ParserFeed(p, b, cfg);
            ParserRun(p, [b], cfg) == (q, if done && q.pending.Some? then [q.pending.value] else [])
  {
    hide ParserFeed;
    assert [b][1..] == [];
    var (q, done) := ParserFeed(p, b, cfg);
    assert ParserRun(q, [], cfg) == (q, []);
    assert done && q.pending.Some? ==> [q.pending.value] + [] == [q.pending.value];
  }

  /**
   * The line parser on a whole stream, from an empty line: it completes the commands that the
   * stream's non-empty lines spell, in order, and keeps what follows the last one.
   */
  lemma {:induction false} ParserReadsLines(p: Parser, bytes: seq<byte>, cfg: Config)
    requires p.line == [] && cfg.maxLine > 0
    ensures var (lines, rest) := Lines(bytes);
            var (q, cmds) := ParserRun(p, bytes, cfg);
            cmds == Spelled(lines, cfg) && q.line == Kept(rest, cfg.maxLine - 1)
    decreases |bytes|
  {
    assert Kept([], cfg.maxLine - 1) == [];
    hide ParserRun, ParserFeed, Kept, Spelled, Terminator;
    if bytes == [] {
      ParserRunNothing(p, cfg);
      assert Spelled([], cfg) == [] by { NothingSpelled(cfg); }
    } else {
      var n := |bytes| - 1;
      var b := bytes[n];
      assert bytes == bytes[..n] + [b];
      ParserReadsLines(p, bytes[..n], cfg);
      ParserRunConcat(p, bytes[..n], [b], cfg);
      var (lines, rest) := Lines(bytes[..n]);
      var q := ParserRun(p, bytes[..n], cfg).0;
      ParserOne(q, b, cfg);
      KeptIsShort(rest, cfg.maxLine - 1);
      KeptNext(rest, b, cfg.maxLine - 1);
      SpelledNext(lines, rest, cfg);
      FeedsLine(q, b, Kept(rest, cfg.maxLine - 1), cfg);
      assert Spelled(lines, cfg) + [] == Spelled(lines, cfg);
    }
  }

  lemma NothingSpelled(cfg: Config)
    requires cfg.maxLine > 0
    ensures Spelled([], cfg) == []
  {
  }

  lemma SpelledNext(lines: seq<seq<byte>>, line: seq<byte>, cfg: Config)
    requires cfg.maxLine > 0
    ensures var l := Kept(line, cfg.maxLine - 1);
            Spelled(lines + [line], cfg) ==
            Spelled(lines, cfg) + if l != [] && cfg.parse(l).Some? then [cfg.parse(l).value] else []
  {
    assert (lines + [line])[..|lines|] == lines;
  }

  /** One byte of it, `l` being the line so far. */
  lemma FeedsLine(q: Parser, b: byte, l: seq<byte>, cfg: Config)
    requires q.line == l && |l| < cfg.maxLine
    ensures var (r, done) := ParserFeed(q, b, cfg);
            && r.line == (if Terminator(b) || |l| == cfg.maxLine - 1 then [] else l + [b])
            && (done <==> Terminator(b) && l != [] && cfg.parse(l).Some?)
            && (done ==> r.pending == cfg.parse(l))
  {
  }

  /** One answer per tick that completed a command, to the last one it completed. */
  function BareAnswers(p: Parser, inputs: seq<Input>, cfg: Config): seq<Output>
    decreases |inputs|
  {
    if inputs == [] then []
    else
      var (q, cmds) := ParserRun(p, inputs[0].bytes, cfg);
      (if cmds == [] then []
       else
         var last := cmds[|cmds| - 1];
         [if inputs[0].accepted then TextAck(last) else TextNack(last)])
      + BareAnswers(q.(pending := None), inputs[1..], cfg)
  }

  lemma BareTick(s: State, bytes: seq<byte>, accepted: bool, cfg: Config)
    requires Settled(s) && !s.framed && s.probe == None && ZeroFree(bytes)
    ensures var (q, cmds) := ParserRun(s.parser, bytes, cfg);
            Tick(s, bytes, accepted, cfg) ==
            s.(parser := q.(pending := None),
               sent := s.sent + if cmds == [] then []
                                else
                                  var last := cmds[|cmds| - 1];
                                  [if accepted then TextAck(last) else TextNack(last)])
  {
    hide Pass, ParserRun;
    BareRead(s, bytes, cfg);
    ParserRunPends(s.parser, bytes, cfg);
    assert s.sent + [] == s.sent;
  }

  /**
   * A zero-free stream in text mode is the bare line parser's: nothing but the parser and
   * the answers changes, and the line and the commands are those of the whole stream.
   */
  lemma {:induction false} ZeroFreeIsBareParser(s: State, inputs: seq<Input>, cfg: Config)
    requires Settled(s) && !s.framed && s.probe == None && ZeroFree(Received(inputs))
    ensures Ticks(s, inputs, cfg) ==
            s.(parser := ParserRun(s.parser, Received(inputs), cfg).0.(pending := None),
               sent := s.sent + BareAnswers(s.parser, inputs, cfg))
    decreases |inputs|
  {
    assert s.parser.pending.None?;
    hide Tick, ParserRun, BareAnswers, Coherent;
    if inputs == [] {
      assert s.sent + [] == s.sent;
      ParserRunNothing(s.parser, cfg);
      assert BareAnswers(s.parser, [], cfg) == [] by { NoBareAnswers(s.parser, cfg); }
    } else {
      var bytes, accepted := inputs[0].bytes, inputs[0].accepted;
      ZeroFreeParts(bytes, Received(inputs[1..]));
      BareTick(s, bytes, accepted, cfg);
      TickKeeps(s, bytes, accepted, cfg);
      ZeroFreeIsBareParser(Tick(s, bytes, accepted, cfg), inputs[1..], cfg);
      BareNext(s.parser, s.sent, inputs, cfg);
    }
  }

  lemma NoBareAnswers(p: Parser, cfg: Config)
    ensures BareAnswers(p, [], cfg) == []
  {
  }

  /** One tick of it. */
  lemma BareNext(p: Parser, sent: seq<Output>, inputs: seq<Input>, cfg: Config)
    requires inputs != [] && p.pending.None?
    ensures var (q, cmds) := ParserRun(p, inputs[0].bytes, cfg);
            var now := if cmds == [] then []
                       else
                         var last := cmds[|cmds| - 1];
                         [if inputs[0].accepted then TextAck(last) else TextNack(last)];
            var r := q.(pending := None);
            && sent + BareAnswers(p, inputs, cfg) == sent + now + BareAnswers(r, inputs[1..], cfg)
            && ParserRun(p, Received(inputs), cfg).0.(pending := None) ==
               ParserRun(r, Received(inputs[1..]), cfg).0.(pending := None)
  {
    hide ParserRun;
    var bytes, rest := inputs[0].bytes, Received(inputs[1..]);
    ParserRunConcat(p, bytes, rest, cfg);
    ParserRunPends(ParserRun(p, bytes, cfg).0, rest, cfg);
  }

  lemma ParserRunNothing(p: Parser, cfg: Config)
    ensures ParserRun(p, [], cfg) == (p, [])
  {
  }

  lemma ZeroFreeParts(a: seq<byte>, b: seq<byte>)
    requires ZeroFree(a + b)
    ensures ZeroFree(a) && ZeroFree(b)
  {
    assert forall i :: 0 <= i < |a| ==> a[i] == (a + b)[i];
    assert forall i :: 0 <= i < |b| ==> b[i] == (a + b)[|a| + i];
  }

  function AnsweredCommands(outputs: seq<Output>): seq<Command> {
    if outputs == [] then []
    else (match outputs[0]
          case TextAck(c) => [c]
          case TextNack(c) => [c]
          case Sent(_) => []) + AnsweredCommands(outputs[1..])
  }

  /** No read completes two commands. */
  predicate Unhurried(p: Parser, inputs: seq<Input>, cfg: Config)
    decreases |inputs|
  {
    inputs == [] ||
    var (q, cmds) := ParserRun(p, inputs[0].bytes, cfg);
    |cmds| <= 1 && Unhurried(q.(pending := None), inputs[1..], cfg)
  }

  lemma {:induction false} AnswersAreNoMore(p: Parser, inputs: seq<Input>, cfg: Config)
    ensures var answered := AnsweredCommands(BareAnswers(p, inputs, cfg));
            var completed := ParserRun(p, Received(inputs), cfg).1;
            && |answered| <= |completed|
            && (Unhurried(p, inputs, cfg) <==> |answered| == |completed|)
            && (Unhurried(p, inputs, cfg) ==> answered == completed)
    decreases |inputs|
  {
    hide ParserRun;
    if inputs == [] {
      ParserRunNothing(p, cfg);
    } else {
      var bytes, rest := inputs[0].bytes, Received(inputs[1..]);
      var (q, cmds) := ParserRun(p, bytes, cfg);
      ParserRunConcat(p, bytes, rest, cfg);
      ParserRunPends(p, bytes, cfg);
      ParserRunPends(q, rest, cfg);
      AnswersAreNoMore(q.(pending := None), inputs[1..], cfg);
      var more := BareAnswers(q.(pending := None), inputs[1..], cfg);
      if cmds == [] {
        assert [] + more == more;
        assert cmds + ParserRun(q, rest, cfg).1 == ParserRun(q, rest, cfg).1;
      } else {
        var first := if inputs[0].accepted then TextAck(cmds[|cmds| - 1]) else TextNack(cmds[|cmds| - 1]);
        assert BareAnswers(p, inputs, cfg) == [first] + more;
        assert ([first] + more)[1..] == more;
        assert |cmds| == 1 ==> cmds == [cmds[0]];
      }
    }
  }

  /**
   * In plain text every completed command is answered, once and in order, if and only if no
   * single read completed two: the second one overwrites the first.
   */
  lemma PlainTextAnsweredExactly(s: State, inputs: seq<Input>, cfg: Config)
    requires Settled(s) && !s.framed && s.probe == None && ZeroFree(Received(inputs))
    ensures |Ticks(s, inputs, cfg).sent| >= |s.sent|
    ensures AnsweredCommands(Ticks(s, inputs, cfg).sent[|s.sent|..]) ==
            ParserRun(s.parser, Received(inputs), cfg).1 <==>
            Unhurried(s.parser, inputs, cfg)
  {
    hide Ticks, ParserRun, Unhurried, BareAnswers, AnsweredCommands;
    ZeroFreeIsBareParser(s, inputs, cfg);
    AnswersAreNoMore(s.parser, inputs, cfg);
    assert Ticks(s, inputs, cfg).sent[|s.sent|..] == BareAnswers(s.parser, inputs, cfg);
  }

  // ----- framed commands -----

  function CommandOf(m: Message): Command
    requires |m.payload| == 6
  {
    Command(m.payload[0], m.payload[1], m.payload[2..])
  }

  predicate IsCommand(r: Result) {
    r.Ready? && r.msgType == COMMAND && |r.payload| == 6
  }

  /** The commands among the decoder's results. */
  function CommandsIn(rs: seq<Result>): (ms: seq<Message>)
    ensures forall m :: m in ms ==> m.msgType == COMMAND && |m.payload| == 6
  {
    if rs == [] then []
    else (if IsCommand(rs[0]) then [Message(COMMAND, rs[0].seqNum, rs[0].payload)] else []) + CommandsIn(rs[1..])
  }

  /** Every frame among the results is a command frame. */
  predicate CommandsOnly(rs: seq<Result>) {
    forall i :: 0 <= i < |rs| && rs[i].Ready? ==> rs[i].msgType == COMMAND
  }

  /** The slot after a read that completed `ms`: the last one replaces what was there. */
  function WithCommands(s: State, d: Decoder, ms: seq<Message>): State
    requires forall m :: m in ms ==> |m.payload| == 6
  {
    if ms == [] then s.(decoder := d)
    else
      var last := ms[|ms| - 1];
      s.(decoder := d, command := Some(CommandOf(last)), commandSeq := last.seqNum)
  }

  lemma FramedByteCommand(s: State, b: byte, cfg: Config)
    requires var r := Feed(s.decoder, b, cfg.maxPayload).1; r.Ready? ==> r.msgType == COMMAND
    ensures var (d, r) := Feed(s.decoder, b, cfg.maxPayload);
            FramedByte(s, b, cfg) == WithCommands(s, d, CommandsIn([r]))
  {
    hide Feed, Dispatch;
  }

  lemma WithCommandsTwice(s: State, d: Decoder, a: seq<Message>, e: Decoder, b: seq<Message>)
    requires (forall m :: m in a ==> |m.payload| == 6) && forall m :: m in b ==> |m.payload| == 6
    ensures forall m :: m in a + b ==> |m.payload| == 6
    ensures WithCommands(WithCommands(s, d, a), e, b) == WithCommands(s, e, a + b)
  {
    if b == [] {
      assert a + b == a;
    } else {
      assert (a + b)[|a + b| - 1] == b[|b| - 1];
    }
  }

  lemma {:induction false} FramedRead(s: State, bytes: seq<byte>, cfg: Config)
    requires CommandsOnly(FeedAll(s.decoder, bytes, cfg.maxPayload).1)
    ensures var (d, rs) := FeedAll(s.decoder, bytes, cfg.maxPayload);
            Pass(s, true, bytes, cfg) == (WithCommands(s, d, CommandsIn(rs)), true)
    decreases |bytes|
  {
    hide Feed, FramedByte, WithCommands, CommandsOnly, CommandsIn;
    if bytes == [] {
      NoCommandsIn();
      NothingTaken(s);
    } else {
      var (e, r) := Feed(s.decoder, bytes[0], cfg.maxPayload);
      var (d, rs) := FeedAll(e, bytes[1..], cfg.maxPayload);
      CommandsOnlyParts([r], rs);
      OnlyResult(r);
      FramedByteCommand(s, bytes[0], cfg);
      var t := FramedByte(s, bytes[0], cfg);
      DecoderTaken(s, e, CommandsIn([r]));
      FramedRead(t, bytes[1..], cfg);
      WithCommandsTwice(s, e, CommandsIn([r]), d, CommandsIn(rs));
      CommandsInConcat([r], rs);
    }
  }

  lemma NothingTaken(s: State)
    ensures WithCommands(s, s.decoder, []) == s
  {
  }

  lemma OnlyResult(r: Result)
    requires CommandsOnly([r])
    ensures r.Ready? ==> r.msgType == COMMAND
  {
    assert [r][0] == r;
  }

  lemma DecoderTaken(s: State, d: Decoder, ms: seq<Message>)
    requires forall m :: m in ms ==> |m.payload| == 6
    ensures WithCommands(s, d, ms).decoder == d
  {
  }

  lemma {:induction false} CommandsInConcat(a: seq<Result>, b: seq<Result>)
    ensures CommandsIn(a + b) == CommandsIn(a) + CommandsIn(b)
  {
    hide CommandsIn;
    if a == [] {
      assert a + b == b;
      NoCommandsIn();
    } else {
      assert (a + b)[1..] == a[1..] + b;
      CommandsInNext(a);
      CommandsInNext(a + b);
      CommandsInConcat(a[1..], b);
    }
  }

  lemma CommandsInNext(rs: seq<Result>)
    requires rs != []
    ensures CommandsIn(rs) ==
            (if IsCommand(rs[0]) then [Message(COMMAND, rs[0].seqNum, rs[0].payload)] else []) + CommandsIn(rs[1..])
  {
  }

  lemma CommandsOnlyParts(a: seq<Result>, b: seq<Result>)
    requires CommandsOnly(a + b)
    ensures CommandsOnly(a) && CommandsOnly(b)
  {
    assert forall i :: 0 <= i < |a| ==> a[i] == (a + b)[i];
    assert forall i :: 0 <= i < |b| ==> b[i] == (a + b)[|a| + i];
  }

  /** One receipt per tick that completed a command, for the last one it completed. */
  function FramedAnswers(d: Decoder, inputs: seq<Input>, maxPayload: nat): seq<Output>
    decreases |inputs|
  {
    if inputs == [] then []
    else
      var (e, rs) := FeedAll(d, inputs[0].bytes, maxPayload);
      var ms := CommandsIn(rs);
      (if ms == [] then []
       else
         var last := ms[|ms| - 1];
         [Receipt(last.seqNum, CommandOf(last), inputs[0].accepted)])
      + FramedAnswers(e, inputs[1..], maxPayload)
  }

  lemma FramedTick(s: State, bytes: seq<byte>, accepted: bool, cfg: Config)
    requires Settled(s) && s.framed && cfg.maxPayload >= 6
    requires CommandsOnly(FeedAll(s.decoder, bytes, cfg.maxPayload).1)
    ensures var (d, rs) := FeedAll(s.decoder, bytes, cfg.maxPayload);
            var ms := CommandsIn(rs);
            var t := Tick(s, bytes, accepted, cfg);
            && t.framed && t.decoder == d
            && t.sent == s.sent + if ms == [] then []
                                  else
                                    var last := ms[|ms| - 1];
                                    [Receipt(last.seqNum, CommandOf(last), accepted)]
  {
    hide Pass, FeedAll, CommandsOnly, CommandsIn;
    FramedRead(s, bytes, cfg);
    assert s.sent + [] == s.sent;
  }

  lemma {:induction false} FramedSession(s: State, inputs: seq<Input>, cfg: Config)
    requires Settled(s) && s.framed && cfg.maxPayload >= 6
    requires CommandsOnly(FeedAll(s.decoder, Received(inputs), cfg.maxPayload).1)
    ensures var t := Ticks(s, inputs, cfg);
            && t.framed && t.decoder == FeedAll(s.decoder, Received(inputs), cfg.maxPayload).0
            && t.sent == s.sent + FramedAnswers(s.decoder, inputs, cfg.maxPayload)
    decreases |inputs|
  {
    hide Tick, FeedAll, CommandsOnly, CommandsIn, Coherent;
    if inputs == [] {
      assert s.sent + [] == s.sent;
      FeedNone(s.decoder, cfg.maxPayload);
    } else {
      var bytes, rest := inputs[0].bytes, Received(inputs[1..]);
      FeedAllConcat(s.decoder, bytes, rest, cfg.maxPayload);
      var (d, rs) := FeedAll(s.decoder, bytes, cfg.maxPayload);
      CommandsOnlyParts(rs, FeedAll(d, rest, cfg.maxPayload).1);
      FramedTick(s, bytes, inputs[0].accepted, cfg);
      TickKeeps(s, bytes, inputs[0].accepted, cfg);
      FramedSession(Tick(s, bytes, inputs[0].accepted, cfg), inputs[1..], cfg);
    }
  }

  lemma FeedNone(d: Decoder, maxPayload: nat)
    ensures FeedAll(d, [], maxPayload) == (d, [])
  {
  }

  /** A command as its receipt names it: sequence number and id. */
  function Named(ms: seq<Message>): (r: seq<(byte, byte)>)
    requires forall m :: m in ms ==> |m.payload| == 6
    ensures |r| == |ms|
  {
    seq(|ms|, i requires 0 <= i < |ms| => (ms[i].seqNum, ms[i].payload[0]))
  }

  function Receipted(outputs: seq<Output>): seq<(byte, byte)> {
    if outputs == [] then []
    else (if outputs[0].Sent? && outputs[0].message.payload != []
          then [(outputs[0].message.seqNum, outputs[0].message.payload[0])] else []) + Receipted(outputs[1..])
  }

  /** No read completes two command frames. */
  predicate UnhurriedFrames(d: Decoder, inputs: seq<Input>, maxPayload: nat)
    decreases |inputs|
  {
    inputs == [] ||
    var (e, rs) := FeedAll(d, inputs[0].bytes, maxPayload);
    |CommandsIn(rs)| <= 1 && UnhurriedFrames(e, inputs[1..], maxPayload)
  }

  lemma {:induction false} ReceiptsAreNoMore(d: Decoder, inputs: seq<Input>, maxPayload: nat)
    ensures var receipted := Receipted(FramedAnswers(d, inputs, maxPayload));
            var completed := Named(CommandsIn(FeedAll(d, Received(inputs), maxPayload).1));
            && |receipted| <= |completed|
            && (UnhurriedFrames(d, inputs, maxPayload) <==> |receipted| == |completed|)
            && (UnhurriedFrames(d, inputs, maxPayload) ==> receipted == completed)
    decreases |inputs|
  {
    hide FeedAll, CommandsIn, Receipt, CommandOf;
    if inputs == [] {
      FeedNone(d, maxPayload);
      assert CommandsIn([]) == [] by { NoCommandsIn(); }
    } else {
      var bytes, rest := inputs[0].bytes, Received(inputs[1..]);
      var (e, rs) := FeedAll(d, bytes, maxPayload);
      var ms, later := CommandsIn(rs), CommandsIn(FeedAll(e, rest, maxPayload).1);
      FeedAllConcat(d, bytes, rest, maxPayload);
      CommandsInConcat(rs, FeedAll(e, rest, maxPayload).1);
      ReceiptsAreNoMore(e, inputs[1..], maxPayload);
      assert Named(ms + later) == Named(ms) + Named(later);
      var more := FramedAnswers(e, inputs[1..], maxPayload);
      if ms == [] {
        assert [] + more == more && Named(ms) + Named(later) == Named(later);
      } else {
        var last := ms[|ms| - 1];
        var first := Receipt(last.seqNum, CommandOf(last), inputs[0].accepted);
        ReceiptNames(last, inputs[0].accepted, more);
        assert FramedAnswers(d, inputs, maxPayload) == [first] + more;
        assert |ms| == 1 ==> Named(ms) == [(last.seqNum, last.payload[0])];
      }
    }
  }

  lemma ReceiptNames(m: Message, accepted: bool, more: seq<Output>)
    requires |m.payload| == 6
    ensures Receipted([Receipt(m.seqNum, CommandOf(m), accepted)] + more) ==
            [(m.seqNum, m.payload[0])] + Receipted(more)
  {
    var first := Receipt(m.seqNum, CommandOf(m), accepted);
    assert ([first] + more)[1..] == more;
  }

  lemma NoCommandsIn()
    ensures CommandsIn([]) == [] && CommandsOnly([])
  {
  }

  lemma {:induction false} CommandsDelivered(ms: seq<Message>)
    requires forall m :: m in ms ==> m.msgType == COMMAND && |m.payload| == 6
    ensures CommandsIn(Deliveries(ms)) == ms && CommandsOnly(Deliveries(ms))
    decreases |ms|
  {
    hide WireOf, CommandsIn, CommandsOnly;
    if ms == [] {
      NoCommandsIn();
    } else {
      WireOfIsLong(ms[0]);
      var silence, ready := Silence(|WireOf(ms[0])| - 1), [Ready(ms[0].msgType, ms[0].seqNum, ms[0].payload)];
      SilentCommands(|silence|);
      OneCommand(ms[0]);
      CommandsInConcat(silence, ready);
      CommandsInConcat(silence + ready, Deliveries(ms[1..]));
      CommandsDelivered(ms[1..]);
      CommandsOnlyWhole(silence, ready);
      CommandsOnlyWhole(silence + ready, Deliveries(ms[1..]));
      assert ms == [ms[0]] + ms[1..];
    }
  }

  lemma CommandsOnlyWhole(a: seq<Result>, b: seq<Result>)
    requires CommandsOnly(a) && CommandsOnly(b)
    ensures CommandsOnly(a + b)
  {
  }

  lemma OneCommand(m: Message)
    requires m.msgType == COMMAND && |m.payload| == 6
    ensures CommandsIn([Ready(m.msgType, m.seqNum, m.payload)]) == [m]
    ensures CommandsOnly([Ready(m.msgType, m.seqNum, m.payload)])
  {
  }

  lemma {:induction false} SilentCommands(n: nat)
    ensures CommandsIn(Silence(n)) == [] && CommandsOnly(Silence(n))
  {
    if n > 0 {
      assert Silence(n)[1..] == Silence(n - 1);
      SilentCommands(n - 1);
    }
  }

  /**
   * In a framed session of command frames, cut into reads in any way, every command is
   * answered, once and in order, if and only if no single read completed two.
   */
  lemma CommandSessionAnsweredExactly(s: State, ms: seq<Message>, inputs: seq<Input>, cfg: Config)
    requires Settled(s) && s.framed && s.decoder.acc == [] && cfg.maxPayload >= 6
    requires (forall m :: m in ms ==> m.msgType == COMMAND && |m.payload| == 6) && Received(inputs) == Stream(ms)
    ensures |Ticks(s, inputs, cfg).sent| >= |s.sent|
    ensures Receipted(Ticks(s, inputs, cfg).sent[|s.sent|..]) == Named(ms) <==>
            UnhurriedFrames(s.decoder, inputs, cfg.maxPayload)
  {
    hide Ticks, FeedAll, CommandsIn, CommandsOnly, UnhurriedFrames, FramedAnswers, Receipted, Received, Stream,
         Deliveries;
    StreamDelivered(s.decoder, ms, cfg.maxPayload);
    CommandsDelivered(ms);
    FramedSession(s, inputs, cfg);
    ReceiptsAreNoMore(s.decoder, inputs, cfg.maxPayload);
    assert Ticks(s, inputs, cfg).sent[|s.sent|..] == FramedAnswers(s.decoder, inputs, cfg.maxPayload);
  }
}
