/**
 * Which commands get an answer: every command that a run of reads completes, in either mode
 * and across the switches between them, and the one drain per tick (ScheduledCommsTask.h)
 * that may answer it. `init` reads once without draining.
 */
module Answers {
  import opened Bytes
  import opened Cli
  import opened Cobs
  import opened Frame

  /** A completed command: a line in text mode, or a COMMAND frame with its sequence number. */
  datatype Completion = Line(cmd: Command) | Packet(cmd: Command, seqNum: byte)

  /** What matters of a run to its commands. `Close` is an exit request, `Drain` the end of a tick. */
  datatype Mark = Done(c: Completion) | Open | Close | Drain

  // ----- the marks of a run -----

  function TextMarks(s: State, b: byte, cfg: Config): seq<Mark> {
    if TextByte(s, b, cfg).framed then [Open]
    else if b == DELIMITER || (s.probe.Some? && |s.probe.value| < MAX_PROBE) then []
    else match ParserFeed(s.parser, b, cfg)
      case (Parser(_, Some(c)), true) => [Done(Line(c))]
      case _ => []
  }

  function FramedMarks(s: State, b: byte, cfg: Config): seq<Mark> {
    var r := Feed(s.decoder, b, cfg.maxPayload).1;
    if IsCommand(r) then [Done(Packet(Command(r.payload[0], r.payload[1], r.payload[2..]), r.seqNum))]
    else if cfg.handler && Exits(r) then [Close]
    else []
  }

  /** The marks of one pass over the read buffer. */
  function Trace(s: State, framing: bool, bytes: seq<byte>, cfg: Config): seq<Mark>
    decreases |bytes|
  {
    if bytes == [] then []
    else if framing then FramedMarks(s, bytes[0], cfg) + Trace(FramedByte(s, bytes[0], cfg), true, bytes[1..], cfg)
    else
      var t := TextByte(s, bytes[0], cfg);
      TextMarks(s, bytes[0], cfg) + Trace(t, t.framed, bytes[1..], cfg)
  }

  function Marks(s: State, inputs: seq<Input>, cfg: Config): seq<Mark>
    decreases |inputs|
  {
    if inputs == [] then []
    else
      Trace(s, s.framed, inputs[0].bytes, cfg) + [Drain] +
      Marks(Tick(s, inputs[0].bytes, inputs[0].accepted, cfg), inputs[1..], cfg)
  }

  // ----- the answers of a run -----

  /** The command the drain takes from the slot of the present mode. */
  function Taken(s: State): seq<Completion> {
    match GetCommand(s).1
    case None => []
    case Some(c) => if s.framed then [Packet(c, s.commandSeq)] else [Line(c)]
  }

  function Reply(c: Completion, accepted: bool): Output {
    match c
    case Line(cmd) => if accepted then TextAck(cmd) else TextNack(cmd)
    case Packet(cmd, q) => Receipt(q, cmd, accepted)
  }

  /** A tick sends what its read sends, and then the one answer to what the drain takes. */
  lemma TickReplies(s: State, bytes: seq<byte>, accepted: bool, cfg: Config)
    requires Coherent(s) && (s.command.Some? ==> cfg.maxPayload >= 6)
    ensures var t := Read(s, bytes, cfg);
            var c := Taken(t);
            && |c| <= 1
            && Tick(s, bytes, accepted, cfg).sent == t.sent + (if c == [] then [] else [Reply(c[0], accepted)])
            && (c != [] && c[0].Line? ==> Reply(c[0], accepted) == if accepted then TextAck(c[0].cmd)
                else TextNack(c[0].cmd))
            && (c != [] && c[0].Packet? ==> Reply(c[0], accepted) == Receipt(c[0].seqNum, c[0].cmd, accepted))
            && Offered(t, accepted) == if c == [] || !accepted then [] else [c[0].cmd]
  {
    PassKeeps(s, s.framed, bytes, cfg);
    PassRoom(s, s.framed, bytes, cfg);
    hide Pass;
    var t := Read(s, bytes, cfg);
    assert t.sent + [] == t.sent;
  }

  /** A command frame fits the payload buffer, so its refusal fits as well. */
  lemma {:induction false} PassRoom(s: State, framing: bool, bytes: seq<byte>, cfg: Config)
    requires s.command.Some? ==> cfg.maxPayload >= 6
    ensures Pass(s, framing, bytes, cfg).0.command.Some? ==> cfg.maxPayload >= 6
    decreases |bytes|
  {
    hide TextByte, FramedByte;
    if bytes != [] {
      if framing {
        FramedByteRoom(s, bytes[0], cfg);
        PassRoom(FramedByte(s, bytes[0], cfg), true, bytes[1..], cfg);
      } else {
        TextByteHolds(s, bytes[0], cfg);
        var t := TextByte(s, bytes[0], cfg);
        PassRoom(t, t.framed, bytes[1..], cfg);
      }
    }
  }

  lemma FramedByteRoom(s: State, b: byte, cfg: Config)
    requires s.command.Some? ==> cfg.maxPayload >= 6
    ensures FramedByte(s, b, cfg).command.Some? ==> cfg.maxPayload >= 6
  {
    hide GoodHello, Intact, Decode;
  }

  /** What the drains of a run take, in order. */
  function Answers(s: State, inputs: seq<Input>, cfg: Config): seq<Completion>
    decreases |inputs|
  {
    if inputs == [] then []
    else
      Taken(Read(s, inputs[0].bytes, cfg)) +
      Answers(Tick(s, inputs[0].bytes, inputs[0].accepted, cfg), inputs[1..], cfg)
  }

  // ----- which completed commands are answered -----

  /**
   * The fate of a command, from what follows it: it is answered exactly if a tick ends in its
   * own mode before another command of its kind is completed and before an exit is requested.
   */
  predicate Reached(c: Completion, framed: bool, marks: seq<Mark>)
    decreases |marks|
  {
    marks != [] &&
    match marks[0]
    case Done(d) => d.Line? != c.Line? && Reached(c, framed, marks[1..])
    case Open => Reached(c, true, marks[1..])
    case Close => false
    case Drain => framed == c.Packet? || Reached(c, framed, marks[1..])
  }

  function Next(framed: bool, m: Mark): bool {
    match m
    case Open => true
    case Close => false
    case _ => framed
  }

  /** The commands of one kind among the marks that are answered. */
  function Reachable(packet: bool, framed: bool, marks: seq<Mark>): seq<Completion>
    decreases |marks|
  {
    if marks == [] then []
    else
      (if marks[0].Done? && marks[0].c.Packet? == packet && Reached(marks[0].c, framed, marks[1..])
       then [marks[0].c] else [])
      + Reachable(packet, Next(framed, marks[0]), marks[1..])
  }

  /** Every command among the marks is answered. */
  predicate AllReached(framed: bool, marks: seq<Mark>)
    decreases |marks|
  {
    marks != [] ==>
      && (marks[0].Done? ==> Reached(marks[0].c, framed, marks[1..]))
      && AllReached(Next(framed, marks[0]), marks[1..])
  }

  function Completed(marks: seq<Mark>): seq<Completion> {
    if marks == [] then []
    else (if marks[0].Done? then [marks[0].c] else []) + Completed(marks[1..])
  }

  function Among(packet: bool, cs: seq<Completion>): seq<Completion> {
    if cs == [] then []
    else (if cs[0].Packet? == packet then [cs[0]] else []) + Among(packet, cs[1..])
  }

  // ----- one slot of the front end -----

  /** The command in the slot of one mode. */
  function Slot(s: State, packet: bool): (c: Option<Completion>)
    ensures c.Some? ==> c.value.Packet? == packet
  {
    if packet then
      if s.command.Some? then Some(Packet(s.command.value, s.commandSeq)) else None
    else if s.parser.pending.Some? then Some(Line(s.parser.pending.value)) else None
  }

  /** What one mark takes from a slot, and what it leaves there. */
  function Turn(packet: bool, framed: bool, held: Option<Completion>, m: Mark): (seq<Completion>, Option<Completion>) {
    match m
    case Done(c) => ([], if c.Packet? == packet then Some(c) else held)
    case Open => ([], held)
    case Close => ([], None)
    case Drain => if framed == packet && held.Some? then ([held.value], None) else ([], held)
  }

  /** What is taken from one slot while the marks go by. */
  function Play(packet: bool, framed: bool, held: Option<Completion>, marks: seq<Mark>): seq<Completion>
    decreases |marks|
  {
    if marks == [] then []
    else
      var (now, next) := Turn(packet, framed, held, marks[0]);
      now + Play(packet, Next(framed, marks[0]), next, marks[1..])
  }

  function Fate(packet: bool, framed: bool, held: Option<Completion>, marks: seq<Mark>): seq<Completion> {
    if held.Some? && Reached(held.value, framed, marks) then [held.value] else []
  }

  /** A slot hands out exactly the commands that are reached. */
  lemma {:induction false} PlayIsReachable(packet: bool, framed: bool, held: Option<Completion>, marks: seq<Mark>)
    requires held.Some? ==> held.value.Packet? == packet
    ensures Play(packet, framed, held, marks) == Fate(packet, framed, held, marks) + Reachable(packet, framed, marks)
    decreases |marks|
  {
    hide Reachable, Reached, Play, Fate;
    if marks == [] {
      NothingPlays(packet, framed, held);
    } else {
      var (now, next) := Turn(packet, framed, held, marks[0]);
      assert Play(packet, framed, held, marks) == now + Play(packet, Next(framed, marks[0]), next, marks[1..]) by {
        PlayNext(packet, framed, held, marks);
      }
      PlayIsReachable(packet, Next(framed, marks[0]), next, marks[1..]);
      ReachableNext(packet, framed, held, marks);
      var f := Next(framed, marks[0]);
      assert now + (Fate(packet, f, next, marks[1..]) + Reachable(packet, f, marks[1..])) ==
             now + Fate(packet, f, next, marks[1..]) + Reachable(packet, f, marks[1..]);
    }
  }

  lemma PlayNext(packet: bool, framed: bool, held: Option<Completion>, marks: seq<Mark>)
    requires marks != []
    ensures var (now, next) := Turn(packet, framed, held, marks[0]);
            Play(packet, framed, held, marks) == now + Play(packet, Next(framed, marks[0]), next, marks[1..])
  {
  }

  lemma ReachableNext(packet: bool, framed: bool, held: Option<Completion>, marks: seq<Mark>)
    requires marks != [] && (held.Some? ==> held.value.Packet? == packet)
    ensures var (now, next) := Turn(packet, framed, held, marks[0]);
            Fate(packet, framed, held, marks) + Reachable(packet, framed, marks) ==
            now + Fate(packet, Next(framed, marks[0]), next, marks[1..]) +
            Reachable(packet, Next(framed, marks[0]), marks[1..])
  {
    hide Reachable;
    var rest := Reachable(packet, Next(framed, marks[0]), marks[1..]);
    ReachableFirst(packet, framed, marks);
    FateNext(packet, framed, held, marks);
    assert [] + rest == rest && forall x: seq<Completion> :: [] + x == x;
  }

  lemma ReachableFirst(packet: bool, framed: bool, marks: seq<Mark>)
    requires marks != []
    ensures Reachable(packet, framed, marks) ==
            (if marks[0].Done? && marks[0].c.Packet? == packet then Fate(packet, framed, Some(marks[0].c), marks[1..])
             else []) + Reachable(packet, Next(framed, marks[0]), marks[1..])
  {
    hide Reached;
  }

  lemma FateNext(packet: bool, framed: bool, held: Option<Completion>, marks: seq<Mark>)
    requires marks != [] && (held.Some? ==> held.value.Packet? == packet)
    ensures var (now, next) := Turn(packet, framed, held, marks[0]);
            if marks[0].Done? && marks[0].c.Packet? == packet then
              Fate(packet, framed, held, marks) == now == [] && next == Some(marks[0].c)
            else Fate(packet, framed, held, marks) == now + Fate(packet, Next(framed, marks[0]), next, marks[1..])
  {
  }

  lemma TextByteHolds(s: State, b: byte, cfg: Config)
    ensures TextByte(s, b, cfg).command == s.command && TextByte(s, b, cfg).commandSeq == s.commandSeq
  {
    hide Probed, GoodHello, ParserFeed;
  }

  lemma MarkPlays(packet: bool, framed: bool, held: Option<Completion>, marks: seq<Mark>, rest: seq<Mark>)
    requires |marks| <= 1 && Drain !in marks
    ensures Play(packet, framed, held, marks + rest) ==
            if marks == [] then Play(packet, framed, held, rest)
            else Play(packet, Next(framed, marks[0]), Turn(packet, framed, held, marks[0]).1, rest)
  {
    if marks == [] {
      assert marks + rest == rest;
    } else {
      assert (marks + rest)[0] == marks[0] && (marks + rest)[1..] == rest;
    }
  }

  lemma TextBytePlays(s: State, b: byte, packet: bool, rest: seq<Mark>, cfg: Config)
    requires !s.framed
    ensures var t := TextByte(s, b, cfg);
            Play(packet, s.framed, Slot(s, packet), TextMarks(s, b, cfg) + rest) ==
            Play(packet, t.framed, Slot(t, packet), rest)
  {
    hide Probed, GoodHello, Play;
    MarkPlays(packet, s.framed, Slot(s, packet), TextMarks(s, b, cfg), rest);
  }

  lemma FramedBytePlays(s: State, b: byte, packet: bool, rest: seq<Mark>, cfg: Config)
    ensures var t := FramedByte(s, b, cfg);
            Play(packet, s.framed, Slot(s, packet), FramedMarks(s, b, cfg) + rest) ==
            Play(packet, t.framed, Slot(t, packet), rest)
  {
    hide Feed, GoodHello, Play;
    MarkPlays(packet, s.framed, Slot(s, packet), FramedMarks(s, b, cfg), rest);
  }

  lemma {:induction false} PassPlays(s: State, framing: bool, bytes: seq<byte>, packet: bool, rest: seq<Mark>,
                                     cfg: Config)
    requires s.framed ==> framing
    ensures var t := Pass(s, framing, bytes, cfg).0;
            Play(packet, s.framed, Slot(s, packet), Trace(s, framing, bytes, cfg) + rest) ==
            Play(packet, t.framed, Slot(t, packet), rest)
    decreases |bytes|
  {
    hide TextByte, FramedByte, TextMarks, FramedMarks, Play, Slot;
    if bytes == [] {
      assert [] + rest == rest;
    } else {
      var t := if framing then FramedByte(s, bytes[0], cfg) else TextByte(s, bytes[0], cfg);
      var f := framing || t.framed;
      var first := if framing then FramedMarks(s, bytes[0], cfg) else TextMarks(s, bytes[0], cfg);
      var more := Trace(t, f, bytes[1..], cfg);
      assert first + more + rest == first + (more + rest);
      if framing {
        FramedBytePlays(s, bytes[0], packet, more + rest, cfg);
      } else {
        TextBytePlays(s, bytes[0], packet, more + rest, cfg);
      }
      PassPlays(t, f, bytes[1..], packet, rest, cfg);
    }
  }

  lemma DrainPlays(s: State, accepted: bool, packet: bool, rest: seq<Mark>, cfg: Config)
    requires Coherent(s)
    ensures var t := Drained(s, accepted, cfg);
            Play(packet, s.framed, Slot(s, packet), [Drain] + rest) ==
            Among(packet, Taken(s)) + Play(packet, t.framed, Slot(t, packet), rest)
  {
    assert ([Drain] + rest)[1..] == rest;
  }

  lemma {:induction false} AmongConcat(packet: bool, a: seq<Completion>, b: seq<Completion>)
    ensures Among(packet, a + b) == Among(packet, a) + Among(packet, b)
    decreases |a|
  {
    hide Among;
    if a == [] {
      assert a + b == b;
      AmongNone(packet);
    } else {
      assert (a + b)[1..] == a[1..] + b;
      AmongNext(packet, a);
      AmongNext(packet, a + b);
      AmongConcat(packet, a[1..], b);
    }
  }

  lemma AmongNone(packet: bool)
    ensures Among(packet, []) == []
  {
  }

  lemma AmongNext(packet: bool, cs: seq<Completion>)
    requires cs != []
    ensures Among(packet, cs) == (if cs[0].Packet? == packet then [cs[0]] else []) + Among(packet, cs[1..])
  {
  }

  lemma {:induction false} TicksPlay(s: State, inputs: seq<Input>, packet: bool, cfg: Config)
    requires Coherent(s)
    ensures Play(packet, s.framed, Slot(s, packet), Marks(s, inputs, cfg)) == Among(packet, Answers(s, inputs, cfg))
    decreases |inputs|
  {
    hide Trace, Pass, Play, Slot, Taken, Drained, Coherent, Among;
    if inputs == [] {
      NothingPlays(packet, s.framed, Slot(s, packet));
    } else {
      var bytes, accepted := inputs[0].bytes, inputs[0].accepted;
      var t := Tick(s, bytes, accepted, cfg);
      var more := Marks(t, inputs[1..], cfg);
      var trace := Trace(s, s.framed, bytes, cfg);
      assert trace + [Drain] + more == trace + ([Drain] + more);
      PassPlays(s, s.framed, bytes, packet, [Drain] + more, cfg);
      ReadKeeps(s, bytes, cfg);
      DrainPlays(Read(s, bytes, cfg), accepted, packet, more, cfg);
      TickKeeps(s, bytes, accepted, cfg);
      TicksPlay(t, inputs[1..], packet, cfg);
      AmongConcat(packet, Taken(Read(s, bytes, cfg)), Answers(t, inputs[1..], cfg));
    }
  }

  lemma NothingPlays(packet: bool, framed: bool, held: Option<Completion>)
    ensures Play(packet, framed, held, []) == [] && Among(packet, []) == []
    ensures Fate(packet, framed, held, []) + Reachable(packet, framed, []) == []
  {
  }

  // ----- the main results -----

  /** A command that was in its slot before the run counts as completed at its beginning. */
  function LeftOver(s: State): seq<Mark> {
    (if s.parser.pending.Some? then [Done(Line(s.parser.pending.value))] else []) +
    (if s.command.Some? then [Done(Packet(s.command.value, s.commandSeq))] else [])
  }

  /** All marks of a run whose first read is not drained, as `init`'s is not. */
  function RunMarks(s: State, first: seq<byte>, inputs: seq<Input>, cfg: Config): seq<Mark> {
    LeftOver(s) + (Trace(s, s.framed, first, cfg) + Marks(Read(s, first, cfg), inputs, cfg))
  }

  lemma LeftOverPlays(s: State, packet: bool, rest: seq<Mark>)
    ensures Play(packet, s.framed, None, LeftOver(s) + rest) == Play(packet, s.framed, Slot(s, packet), rest)
  {
    assert ([] + rest) == rest;
    if s.parser.pending.Some? && s.command.Some? {
      assert (LeftOver(s) + rest)[1..] == [Done(Packet(s.command.value, s.commandSeq))] + rest;
    }
  }

  /**
   * Exactly which commands are answered, from any state, over any reads, in either mode and
   * across all switches: those that are reached by a drain, each once, in order of completion
   * in its mode.
   */
  lemma AnswersExactly(s: State, first: seq<byte>, inputs: seq<Input>, packet: bool, cfg: Config)
    requires Coherent(s)
    ensures Among(packet, Answers(Read(s, first, cfg), inputs, cfg)) ==
            Reachable(packet, s.framed, RunMarks(s, first, inputs, cfg))
  {
    hide Trace, Pass, Play, Slot, LeftOver, Marks, Answers, Coherent, Reachable, Among;
    var t := Read(s, first, cfg);
    var marks := Marks(t, inputs, cfg);
    ReadKeeps(s, first, cfg);
    TicksPlay(t, inputs, packet, cfg);
    PassPlays(s, s.framed, first, packet, marks, cfg);
    LeftOverPlays(s, packet, Trace(s, s.framed, first, cfg) + marks);
    PlayIsReachable(packet, s.framed, None, RunMarks(s, first, inputs, cfg));
    assert forall x: seq<Completion> :: [] + x == x;
  }

  lemma {:induction false} ReachableIsAll(framed: bool, marks: seq<Mark>)
    ensures |Reachable(false, framed, marks)| <= |Among(false, Completed(marks))|
    ensures |Reachable(true, framed, marks)| <= |Among(true, Completed(marks))|
    ensures AllReached(framed, marks) ==>
              forall packet :: Reachable(packet, framed, marks) == Among(packet, Completed(marks))
    ensures AllReached(framed, marks) <==>
            |Reachable(false, framed, marks)| == |Among(false, Completed(marks))| &&
            |Reachable(true, framed, marks)| == |Among(true, Completed(marks))|
    decreases |marks|
  {
    hide Reached;
    if marks != [] {
      ReachableIsAll(Next(framed, marks[0]), marks[1..]);
      var first := if marks[0].Done? then [marks[0].c] else [];
      AmongConcat(false, first, Completed(marks[1..]));
      AmongConcat(true, first, Completed(marks[1..]));
    }
  }

  /** Every command left over or completed is answered, once and in order. */
  ghost predicate AllAnswered(s: State, first: seq<byte>, inputs: seq<Input>, cfg: Config) {
    forall packet :: Among(packet, Answers(Read(s, first, cfg), inputs, cfg)) ==
                    Among(packet, Completed(RunMarks(s, first, inputs, cfg)))
  }

  /**
   * Every command of a run is answered if and only if each one has a tick end in its mode
   * before the next of its kind and before an exit request.
   */
  lemma EveryCommandAnsweredExactly(s: State, first: seq<byte>, inputs: seq<Input>, cfg: Config)
    requires Coherent(s)
    ensures AllAnswered(s, first, inputs, cfg) <==> AllReached(s.framed, RunMarks(s, first, inputs, cfg))
  {
    hide RunMarks, Answers, Read, Coherent, AllReached, Reachable, Among, Completed;
    AnswersExactly(s, first, inputs, false, cfg);
    AnswersExactly(s, first, inputs, true, cfg);
    ReachableIsAll(s.framed, RunMarks(s, first, inputs, cfg));
    forall packet | AllReached(s.framed, RunMarks(s, first, inputs, cfg))
      ensures Among(packet, Answers(Read(s, first, cfg), inputs, cfg)) ==
              Among(packet, Completed(RunMarks(s, first, inputs, cfg)))
    {
      AnswersExactly(s, first, inputs, packet, cfg);
    }
  }

  /** `b` is `a` with outputs behind it, those to commands typed in text mode being `cmds`. */
  ghost predicate Extends(a: seq<Output>, b: seq<Output>, cmds: seq<Command>) {
    |a| <= |b| && b[..|a|] == a && AnsweredCommands(b[|a|..]) == cmds
  }

  lemma {:induction false} AnsweredConcat(a: seq<Output>, b: seq<Output>)
    ensures AnsweredCommands(a + b) == AnsweredCommands(a) + AnsweredCommands(b)
    decreases |a|
  {
    if a == [] {
      assert a + b == b;
    } else {
      assert (a + b)[0] == a[0] && (a + b)[1..] == a[1..] + b;
      AnsweredConcat(a[1..], b);
    }
  }

  lemma ExtendsOn(a: seq<Output>, b: seq<Output>, c: seq<Output>, x: seq<Command>, y: seq<Command>)
    requires Extends(a, b, x) && Extends(b, c, y)
    ensures Extends(a, c, x + y)
  {
    hide AnsweredCommands;
    assert c[..|a|] == c[..|b|][..|a|];
    assert c[|a|..] == b[|a|..] + c[|b|..] by {
      assert c == b + c[|b|..];
    }
    AnsweredConcat(b[|a|..], c[|b|..]);
  }

  lemma SendSends(a: seq<Output>, m: Message)
    ensures Extends(a, a + [Sent(m)], [])
  {
    assert (a + [Sent(m)])[|a|..] == [Sent(m)];
  }

  lemma DispatchSends(s: State, t: byte, q: byte, p: seq<byte>, cfg: Config)
    ensures Extends(s.sent, Dispatch(s, t, q, p, cfg).0.sent, [])
  {
    hide Extends, GoodHello;
    SameSent(s.sent);
    var u := Dispatch(s, t, q, p, cfg).0;
    if u.sent != s.sent {
      SendSends(s.sent, u.sent[|s.sent|].message);
    }
  }

  lemma TextByteSends(s: State, b: byte, cfg: Config)
    ensures Extends(s.sent, TextByte(s, b, cfg).sent, [])
  {
    hide Probed, Dispatch, ParserFeed, Extends;
    SameSent(s.sent);
    if b == DELIMITER && s.probe.Some? {
      match Probed(s.probe.value, cfg) {
        case Ready(t, q, p) => DispatchSends(s, t, q, p, cfg);
        case _ =>
      }
    }
  }

  lemma FramedByteSends(s: State, b: byte, cfg: Config)
    ensures Extends(s.sent, FramedByte(s, b, cfg).sent, [])
  {
    hide Feed, Dispatch, Extends;
    SameSent(s.sent);
    var (d, r) := Feed(s.decoder, b, cfg.maxPayload);
    if r.Ready? {
      DispatchSends(s.(decoder := d), r.msgType, r.seqNum, r.payload, cfg);
    }
  }

  lemma {:induction false} PassSends(s: State, framing: bool, bytes: seq<byte>, cfg: Config)
    ensures Extends(s.sent, Pass(s, framing, bytes, cfg).0.sent, [])
    decreases |bytes|
  {
    hide TextByte, FramedByte, Extends;
    if bytes == [] {
      SameSent(s.sent);
    } else {
      TextByteSends(s, bytes[0], cfg);
      FramedByteSends(s, bytes[0], cfg);
      var t := if framing then FramedByte(s, bytes[0], cfg) else TextByte(s, bytes[0], cfg);
      PassSends(t, framing || t.framed, bytes[1..], cfg);
      var none: seq<Command> := [];
      assert none + none == none;
      ExtendsOn(s.sent, t.sent, Pass(s, framing, bytes, cfg).0.sent, none, none);
    }
  }

  lemma SameSent(a: seq<Output>)
    ensures Extends(a, a, [])
  {
  }

  function CommandsOf(cs: seq<Completion>): seq<Command> {
    if cs == [] then [] else [cs[0].cmd] + CommandsOf(cs[1..])
  }

  lemma {:induction false} CommandsOfConcat(a: seq<Completion>, b: seq<Completion>)
    ensures CommandsOf(a + b) == CommandsOf(a) + CommandsOf(b)
    decreases |a|
  {
    if a == [] {
      assert a + b == b;
    } else {
      assert (a + b)[1..] == a[1..] + b;
      CommandsOfConcat(a[1..], b);
    }
  }

  lemma DrainSends(s: State, accepted: bool, cfg: Config)
    ensures Extends(s.sent, Drained(s, accepted, cfg).sent, CommandsOf(Among(false, Taken(s))))
  {
    var t := Drained(s, accepted, cfg);
    if t.sent != s.sent {
      assert t.sent[|s.sent|..] == [t.sent[|s.sent|]];
    }
  }

  /** The text answers on the stream are those to the lines among a run's answers, in order. */
  lemma {:induction false} LineAnswersSent(s: State, inputs: seq<Input>, cfg: Config)
    ensures Extends(s.sent, Ticks(s, inputs, cfg).sent, CommandsOf(Among(false, Answers(s, inputs, cfg))))
    decreases |inputs|
  {
    hide Pass, Extends, Among, CommandsOf, Taken, Drained;
    if inputs == [] {
      SameSent(s.sent);
      AmongNone(false);
      assert CommandsOf([]) == [] by { NoCommands(); }
    } else {
      var bytes, accepted := inputs[0].bytes, inputs[0].accepted;
      var t, u := Read(s, bytes, cfg), Tick(s, bytes, accepted, cfg);
      var more := Answers(u, inputs[1..], cfg);
      PassSends(s, s.framed, bytes, cfg);
      DrainSends(t, accepted, cfg);
      LineAnswersSent(u, inputs[1..], cfg);
      AmongConcat(false, Taken(t), more);
      CommandsOfConcat(Among(false, Taken(t)), Among(false, more));
      var now, later := CommandsOf(Among(false, Taken(t))), CommandsOf(Among(false, more));
      ExtendsOn(s.sent, t.sent, u.sent, [], now);
      assert [] + now == now;
      ExtendsOn(s.sent, u.sent, Ticks(u, inputs[1..], cfg).sent, now, later);
    }
  }

  lemma NoCommands()
    ensures CommandsOf([]) == []
  {
  }

  // ----- one read -----

  function LastOf(cs: seq<Completion>, held: Option<Completion>): Option<Completion> {
    if cs == [] then held else Some(cs[|cs| - 1])
  }

  lemma LastOfConcat(a: seq<Completion>, b: seq<Completion>, held: Option<Completion>)
    ensures LastOf(a + b, held) == LastOf(b, LastOf(a, held))
  {
    if b == [] {
      assert a + b == a;
    }
  }

  lemma NoLast(held: Option<Completion>)
    ensures LastOf([], held) == held
  {
  }

  lemma {:induction false} CompletedConcat(a: seq<Mark>, b: seq<Mark>)
    ensures Completed(a + b) == Completed(a) + Completed(b)
    decreases |a|
  {
    hide Completed;
    if a == [] {
      assert a + b == b;
      NothingCompleted();
    } else {
      assert (a + b)[1..] == a[1..] + b;
      CompletedNext(a);
      CompletedNext(a + b);
      CompletedConcat(a[1..], b);
    }
  }

  lemma NothingCompleted()
    ensures Completed([]) == []
  {
  }

  lemma CompletedNext(marks: seq<Mark>)
    requires marks != []
    ensures Completed(marks) == (if marks[0].Done? then [marks[0].c] else []) + Completed(marks[1..])
  {
  }

  /** Once out of step with the mode, the loop stays so, and the parser holds nothing. */
  lemma {:induction false} OutOfStepStays(s: State, bytes: seq<byte>, cfg: Config)
    requires !s.framed
    ensures var t := Pass(s, true, bytes, cfg).0;
            !t.framed && (s.parser.pending.None? ==> t.parser.pending.None?)
    decreases |bytes|
  {
    hide FramedByte;
    if bytes != [] {
      FramedByteExits(s, bytes[0], cfg);
      FramedByteParser(s, bytes[0], cfg);
      OutOfStepStays(FramedByte(s, bytes[0], cfg), bytes[1..], cfg);
    }
  }

  /** In the framed loop the parser is left alone, or reset by an exit. */
  lemma FramedByteParser(s: State, b: byte, cfg: Config)
    ensures var t := FramedByte(s, b, cfg);
            t.parser == s.parser || (t.parser.pending.None? && !t.framed)
    ensures s.framed && !FramedByte(s, b, cfg).framed ==> FramedByte(s, b, cfg).parser.pending.None?
  {
    hide Feed, GoodHello;
  }

  lemma FramedByteSlot(s: State, b: byte, packet: bool, cfg: Config)
    requires s.framed && FramedByte(s, b, cfg).framed
    ensures Slot(FramedByte(s, b, cfg), packet) ==
            LastOf(Among(packet, Completed(FramedMarks(s, b, cfg))), Slot(s, packet))
  {
    hide Feed, GoodHello;
  }

  lemma TextByteSlot(s: State, b: byte, packet: bool, cfg: Config)
    requires !s.framed
    ensures Slot(TextByte(s, b, cfg), packet) == LastOf(Among(packet, Completed(TextMarks(s, b, cfg))), Slot(s, packet))
    ensures forall c :: c in Completed(TextMarks(s, b, cfg)) ==> c.Line?
  {
    hide Probed, GoodHello;
  }

  /** As long as no exit is requested, a slot holds the last command of its kind. */
  lemma {:induction false} PassSlot(s: State, bytes: seq<byte>, packet: bool, cfg: Config)
    requires var (t, f) := Pass(s, s.framed, bytes, cfg); t.framed == f
    ensures Slot(Pass(s, s.framed, bytes, cfg).0, packet) ==
            LastOf(Among(packet, Completed(Trace(s, s.framed, bytes, cfg))), Slot(s, packet))
    decreases |bytes|
  {
    hide TextByte, FramedByte, TextMarks, FramedMarks, Slot, Among, Completed, LastOf;
    if bytes == [] {
      NothingCompleted();
      AmongNone(packet);
      assert LastOf([], Slot(s, packet)) == Slot(s, packet) by { NoLast(Slot(s, packet)); }
    } else {
      var t := if s.framed then FramedByte(s, bytes[0], cfg) else TextByte(s, bytes[0], cfg);
      var first := if s.framed then FramedMarks(s, bytes[0], cfg) else TextMarks(s, bytes[0], cfg);
      if s.framed && !t.framed {
        FramedLoopStays(t, bytes[1..], cfg);
        OutOfStepStays(t, bytes[1..], cfg);
        assert false;
      }
      if s.framed {
        FramedByteSlot(s, bytes[0], packet, cfg);
      } else {
        TextByteSlot(s, bytes[0], packet, cfg);
      }
      PassSlot(t, bytes[1..], packet, cfg);
      var more := Trace(t, t.framed, bytes[1..], cfg);
      CompletedConcat(first, more);
      AmongConcat(packet, Completed(first), Completed(more));
      LastOfConcat(Among(packet, Completed(first)), Among(packet, Completed(more)), Slot(s, packet));
    }
  }

  /** An exit request leaves nothing to drain. */
  lemma {:induction false} ExitEmpties(s: State, framing: bool, bytes: seq<byte>, cfg: Config)
    requires s.framed == framing
    ensures var (t, f) := Pass(s, framing, bytes, cfg); f && !t.framed ==> t.parser.pending.None?
    decreases |bytes|
  {
    hide TextByte, FramedByte;
    if bytes != [] {
      var t := if framing then FramedByte(s, bytes[0], cfg) else TextByte(s, bytes[0], cfg);
      if framing && !t.framed {
        FramedByteParser(s, bytes[0], cfg);
        OutOfStepStays(t, bytes[1..], cfg);
      } else {
        ExitEmpties(t, t.framed, bytes[1..], cfg);
      }
    }
  }

  /**
   * What the drain of a tick takes: nothing after an exit request; otherwise the last command
   * of the kind that belongs to the loop the read ended in, or the one left in that slot.
   */
  lemma DrainTakesExactly(s: State, bytes: seq<byte>, cfg: Config)
    requires Coherent(s)
    ensures var (t, f) := Pass(s, s.framed, bytes, cfg);
            var last := LastOf(Among(f, Completed(Trace(s, s.framed, bytes, cfg))), Slot(s, f));
            Taken(t) == if ExitRead(s, bytes, cfg) || last.None? then [] else [last.value]
  {
    hide Pass, Trace, ExitRead, Among, Completed, LastOf;
    var (t, f) := Pass(s, s.framed, bytes, cfg);
    PassKeeps(s, s.framed, bytes, cfg);
    OutOfStepExactly(s, bytes, cfg);
    PassLeads(s, s.framed, bytes, cfg);
    ExitEmpties(s, s.framed, bytes, cfg);
    if t.framed == f {
      PassSlot(s, bytes, f, cfg);
    }
  }

  /** Neither slot holds a command. */
  ghost predicate NothingLeft(s: State) {
    Coherent(s) && s.command.None? && s.parser.pending.None?
  }

  /**
   * The read completes at most one command, and if so a line without reaching the framed
   * loop, or a frame without reading an exit request.
   */
  ghost predicate Tidy(s: State, bytes: seq<byte>, cfg: Config) {
    var done := Completed(Trace(s, s.framed, bytes, cfg));
    && |done| <= 1
    && (done != [] && done[0].Line? ==> !Pass(s, s.framed, bytes, cfg).1)
    && (done != [] && done[0].Packet? ==> !ExitRead(s, bytes, cfg))
  }

  /** A command frame is completed in the framed loop only. */
  lemma {:induction false} PacketsAreFramed(s: State, framing: bool, bytes: seq<byte>, cfg: Config)
    requires s.framed == framing
    ensures !Pass(s, framing, bytes, cfg).1 ==> forall c :: c in Completed(Trace(s, framing, bytes, cfg)) ==> c.Line?
    decreases |bytes|
  {
    hide TextByte, FramedByte, TextMarks, FramedMarks, Completed;
    if bytes == [] {
      NothingCompleted();
    } else if framing {
      FramedLoopStays(s, bytes, cfg);
    } else {
      var t := TextByte(s, bytes[0], cfg);
      TextByteSlot(s, bytes[0], true, cfg);
      PacketsAreFramed(t, t.framed, bytes[1..], cfg);
      CompletedConcat(TextMarks(s, bytes[0], cfg), Trace(t, t.framed, bytes[1..], cfg));
    }
  }

  /**
   * One tick with nothing left over: every command its read completes is answered if and only
   * if the read is tidy.
   */
  lemma ReadAnsweredExactly(s: State, bytes: seq<byte>, cfg: Config)
    requires NothingLeft(s)
    ensures Taken(Read(s, bytes, cfg)) == Completed(Trace(s, s.framed, bytes, cfg)) <==> Tidy(s, bytes, cfg)
  {
    hide Pass, Trace, ExitRead, Completed;
    var f := Pass(s, s.framed, bytes, cfg).1;
    var done := Completed(Trace(s, s.framed, bytes, cfg));
    DrainTakesExactly(s, bytes, cfg);
    PacketsAreFramed(s, s.framed, bytes, cfg);
    ExitIsFramed(s, bytes, cfg);
    AmongNone(f);
    if |done| == 1 {
      assert done == [done[0]] && done[0] in done;
      AmongOne(f, done[0]);
    }
  }

  lemma AmongOne(packet: bool, c: Completion)
    ensures Among(packet, [c]) == if c.Packet? == packet then [c] else []
  {
  }

  lemma ExitIsFramed(s: State, bytes: seq<byte>, cfg: Config)
    ensures ExitRead(s, bytes, cfg) ==> Pass(s, s.framed, bytes, cfg).1
  {
    hide Pass, ExitRead;
    OutOfStepExactly(s, bytes, cfg);
  }

  /** A slot is only ever filled by a completion. */
  lemma {:induction false} PassFills(s: State, framing: bool, bytes: seq<byte>, packet: bool, cfg: Config)
    requires s.framed ==> framing
    ensures var held := Slot(Pass(s, framing, bytes, cfg).0, packet);
            held.Some? && held != Slot(s, packet) ==> held.value in Completed(Trace(s, framing, bytes, cfg))
    decreases |bytes|
  {
    hide TextByte, FramedByte, TextMarks, FramedMarks, Slot, Completed;
    if bytes != [] {
      var t := if framing then FramedByte(s, bytes[0], cfg) else TextByte(s, bytes[0], cfg);
      var first := if framing then FramedMarks(s, bytes[0], cfg) else TextMarks(s, bytes[0], cfg);
      if framing {
        FramedByteFills(s, bytes[0], packet, cfg);
      } else {
        TextByteFills(s, bytes[0], packet, cfg);
      }
      PassFills(t, framing || t.framed, bytes[1..], packet, cfg);
      CompletedConcat(first, Trace(t, framing || t.framed, bytes[1..], cfg));
    }
  }

  lemma FramedByteFills(s: State, b: byte, packet: bool, cfg: Config)
    ensures var held := Slot(FramedByte(s, b, cfg), packet);
            held.Some? && held != Slot(s, packet) ==> held.value in Completed(FramedMarks(s, b, cfg))
  {
    hide Feed, GoodHello;
  }

  lemma TextByteFills(s: State, b: byte, packet: bool, cfg: Config)
    requires !s.framed
    ensures var held := Slot(TextByte(s, b, cfg), packet);
            held.Some? && held != Slot(s, packet) ==> held.value in Completed(TextMarks(s, b, cfg))
  {
    hide LastOf;
    TextByteSlot(s, b, packet, cfg);
    LastOfIn(packet, Completed(TextMarks(s, b, cfg)), Slot(s, packet));
  }

  lemma {:induction false} LastOfIn(packet: bool, cs: seq<Completion>, held: Option<Completion>)
    ensures var last := LastOf(Among(packet, cs), held); last == held || (last.Some? && last.value in cs)
    decreases |cs|
  {
    if cs != [] {
      LastOfIn(packet, cs[1..], held);
    }
  }

  /** After a tidy read and its drain nothing is left over. */
  lemma TidyLeavesNothing(s: State, bytes: seq<byte>, accepted: bool, cfg: Config)
    requires NothingLeft(s) && Tidy(s, bytes, cfg)
    ensures NothingLeft(Tick(s, bytes, accepted, cfg))
  {
    hide Pass, Trace, Completed, ExitRead, Coherent, Answer;
    ReadAnsweredExactly(s, bytes, cfg);
    TickKeeps(s, bytes, accepted, cfg);
    ReadKeeps(s, bytes, cfg);
    var t := Read(s, bytes, cfg);
    PassFills(s, s.framed, bytes, false, cfg);
    PassFills(s, s.framed, bytes, true, cfg);
    DrainEmpties(t, accepted, cfg);
  }

  lemma DrainEmpties(s: State, accepted: bool, cfg: Config)
    requires Coherent(s)
    requires Slot(s, true).Some? ==> Taken(s) == [Slot(s, true).value]
    requires Slot(s, false).Some? ==> Taken(s) == [Slot(s, false).value]
    ensures var t := Drained(s, accepted, cfg); t.command.None? && t.parser.pending.None?
  {
  }

  /** Every tick of a run answers just what its own read completes. */
  predicate AnsweredInTime(s: State, inputs: seq<Input>, cfg: Config)
    decreases |inputs|
  {
    inputs != [] ==>
      && Taken(Read(s, inputs[0].bytes, cfg)) == Completed(Trace(s, s.framed, inputs[0].bytes, cfg))
      && AnsweredInTime(Tick(s, inputs[0].bytes, inputs[0].accepted, cfg), inputs[1..], cfg)
  }

  ghost predicate AllTidy(s: State, inputs: seq<Input>, cfg: Config)
    decreases |inputs|
  {
    inputs != [] ==>
      && Tidy(s, inputs[0].bytes, cfg)
      && AllTidy(Tick(s, inputs[0].bytes, inputs[0].accepted, cfg), inputs[1..], cfg)
  }

  /**
   * With nothing left over before a run of ticks, every command is answered in its own tick
   * exactly if all reads are tidy.
   */
  lemma {:induction false} AnsweredInTimeExactly(s: State, inputs: seq<Input>, cfg: Config)
    requires NothingLeft(s)
    ensures AnsweredInTime(s, inputs, cfg) <==> AllTidy(s, inputs, cfg)
    decreases |inputs|
  {
    hide Tick, Read, Trace, Tidy, Taken, Completed, NothingLeft;
    if inputs != [] {
      var bytes, accepted := inputs[0].bytes, inputs[0].accepted;
      ReadAnsweredExactly(s, bytes, cfg);
      if Tidy(s, bytes, cfg) {
        TidyLeavesNothing(s, bytes, accepted, cfg);
        AnsweredInTimeExactly(Tick(s, bytes, accepted, cfg), inputs[1..], cfg);
      }
    }
  }

  /** A read with an exit request drains nothing: no answer, and nothing for the queue. */
  lemma ExitDrainsNothing(s: State, bytes: seq<byte>, accepted: bool, cfg: Config)
    requires Coherent(s) && ExitRead(s, bytes, cfg)
    ensures Tick(s, bytes, accepted, cfg) == Read(s, bytes, cfg) && Offered(Read(s, bytes, cfg), accepted) == []
  {
    hide ExitRead, Pass, Trace, Answer;
    DrainTakesExactly(s, bytes, cfg);
    ReadKeeps(s, bytes, cfg);
    TakenIsHeld(Read(s, bytes, cfg));
  }

  lemma TakenIsHeld(s: State)
    requires Coherent(s)
    ensures Taken(s) != [] <==> HasCommand(s)
  {
  }

  // ----- inputs that leave a command without an answer -----

  /**
   * Commands and then an exit request in one read: none of them is ever answered or offered
   * to the queue, not even a single one.
   */
  lemma CommandsBeforeExitAreLost(s: State, ms: seq<Message>, q: byte, accepted: bool, cfg: Config)
    requires Settled(s) && s.framed && s.decoder.acc == [] && cfg.handler && cfg.maxPayload >= 6
    requires forall m :: m in ms ==> m.msgType == COMMAND && |m.payload| == 6
    ensures var bytes := Stream(ms) + Wire(EXIT_HANDSHAKE, q, 0, []);
            var t := Tick(s, bytes, accepted, cfg);
            && t.sent == s.sent + [Sent(Message(ACK, q, [EXIT_HANDSHAKE]))]
            && NothingLeft(t) && !t.framed && Offered(Read(s, bytes, cfg), accepted) == []
  {
    hide Wire, Stream, Pass, CommandsIn, CommandsOnly, Deliveries, FeedAll, WithCommands;
    var exit := Message(EXIT_HANDSHAKE, q, []);
    StreamDelivered(s.decoder, ms, cfg.maxPayload);
    CommandsDelivered(ms);
    FramedRead(s, Stream(ms), cfg);
    PassConcat(s, true, Stream(ms), WireOf(exit), cfg);
    var d := FeedAll(s.decoder, Stream(ms), cfg.maxPayload).0;
    var t := WithCommands(s, d, ms);
    CommandsTaken(s, d, ms);
    PassMessage(t, exit, cfg);
    assert WireOf(exit) == Wire(EXIT_HANDSHAKE, q, 0, []);
  }

  lemma CommandsTaken(s: State, d: Decoder, ms: seq<Message>)
    requires Coherent(s) && forall m :: m in ms ==> |m.payload| == 6
    ensures var t := WithCommands(s, d, ms);
            Coherent(t) && t.framed == s.framed && t.sent == s.sent && t.decoder == d && t.probe == s.probe
  {
    assert ms != [] ==> ms[|ms| - 1] in ms;
  }

  /**
   * Lines and then a handshake in one read: the handshake response is all that is sent, and
   * the last line's command, never offered, is erased by the next exit.
   */
  lemma LinesBeforeHandshakeAreLost(s: State, lines: seq<byte>, q: byte, p: seq<byte>, accepted: bool, r: byte,
                                    cfg: Config)
    requires Settled(s) && !s.framed && s.probe == None && s.command == None && ZeroFree(lines)
    requires cfg.handler && cfg.maxPayload >= 6 && GoodHello(p)
    ensures var bytes := lines + ([DELIMITER] + Wire(HANDSHAKE_REQ, q, 6, p));
            var t := Tick(s, bytes, accepted, cfg);
            var u := Tick(t, Wire(EXIT_HANDSHAKE, r, 0, []), accepted, cfg);
            var response := Sent(Message(HANDSHAKE_RESP, q, HELLO));
            && t.framed && t.sent == s.sent + [response] && Offered(Read(s, bytes, cfg), accepted) == []
            && t.parser == ParserRun(s.parser, lines, cfg).0
            && u.sent == s.sent + [response, Sent(Message(ACK, r, [EXIT_HANDSHAKE]))]
            && NothingLeft(u) && Offered(Read(t, Wire(EXIT_HANDSHAKE, r, 0, []), cfg), accepted) == []
  {
    hide Wire, Pass, ParserRun, GoodHello, Knock, Raw, Encode;
    var seg := Encode(Raw(HANDSHAKE_REQ, q, 6, p));
    var knock := [DELIMITER] + Wire(HANDSHAKE_REQ, q, 6, p);
    assert knock == Knock(seg)[0..] by { KnockLen(seg); KnockIs(seg); RequestIs(q, p); }
    var mid := Pass(s, false, lines, cfg).0;
    BareRead(s, lines, cfg);
    RequestOpens(mid, q, p, cfg);
    OpeningTick(mid, q, p, 0, accepted, cfg);
    PassConcat(s, false, lines, knock, cfg);
    var bytes := lines + knock;
    assert Read(s, bytes, cfg) == Opened(mid, q, cfg);
    var t := Tick(s, bytes, accepted, cfg);
    assert t == Opened(mid, q, cfg);
    TickKeeps(s, bytes, accepted, cfg);
    CommandsBeforeExitAreLost(t, [], r, accepted, cfg);
    assert Stream([]) + Wire(EXIT_HANDSHAKE, r, 0, []) == Wire(EXIT_HANDSHAKE, r, 0, []);
  }

  lemma RequestIs(q: byte, p: seq<byte>)
    ensures Wire(HANDSHAKE_REQ, q, 6, p) == Encode(Raw(HANDSHAKE_REQ, q, 6, p)) + [DELIMITER]
  {
  }

  /**
   * `init` reads without draining. A line it completes is overwritten when the first tick's
   * read completes another, although neither read completes two.
   */
  lemma InitCommandIsOverwritten(s: State, first: seq<byte>, bytes: seq<byte>, accepted: bool, cfg: Config)
    requires NothingLeft(s) && !s.framed && s.probe == None && ZeroFree(first) && ZeroFree(bytes)
    requires var p := ParserRun(s.parser, first, cfg).0;
             |ParserRun(s.parser, first, cfg).1| == 1 && |ParserRun(p, bytes, cfg).1| == 1
    ensures var c := ParserRun(ParserRun(s.parser, first, cfg).0, bytes, cfg).1[0];
            Answers(Read(s, first, cfg), [Input(bytes, accepted)], cfg) == [Line(c)]
  {
    hide ParserRun, Pass, Tick;
    var p := ParserRun(s.parser, first, cfg).0;
    BareRead(s, first, cfg);
    var t := Read(s, first, cfg);
    BareRead(t, bytes, cfg);
    ParserRunPends(p, bytes, cfg);
    var c := ParserRun(p, bytes, cfg).1[0];
    assert Taken(Read(t, bytes, cfg)) == [Line(c)];
    assert [Input(bytes, accepted)][1..] == [];
    assert [Line(c)] + [] == [Line(c)];
  }
}
