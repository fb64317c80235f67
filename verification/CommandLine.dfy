/**
 * The objects of the command path as the firmware holds them: the line parser
 * (CommandParser.h), the CLI (CLI.h) and the comms task that drives it
 * (ScheduledCommsTask.h), each updated in place and each computing what module Cli says.
 */
module CommandLine {
  import opened Bytes
  import opened Frame
  import opened FrameDecoding
  import opened LockFreeQueues
  import opened Cli

  class CommandParser {
    const cfg: Config
    const buf: array<byte>
    var len: nat
    var pending: Option<Command>

    ghost predicate Valid()
      reads this
    {
      len < buf.Length == cfg.maxLine
    }

    ghost function State(): Parser
      requires Valid()
      reads this, buf
    {
      Parser(buf[..len], pending)
    }

    constructor (cfg: Config)
      requires cfg.maxLine >= 1
      ensures Valid() && fresh(buf) && this.cfg == cfg && State() == Parser([], None)
    {
      this.cfg := cfg;
      buf := new byte[cfg.maxLine];
      len, pending := 0, None;
    }

    method FeedByte(b: byte) returns (done: bool)
      requires Valid()
      modifies this, buf
      ensures Valid() && (State(), done) == ParserFeed(old(State()), b, cfg)
    {
      if b == NEWLINE || b == RETURN {
        if len > 0 {
          buf[len] := 0;
          assert buf[..len] == old(buf[..len]);
          var parsed := cfg.parse(buf[..len]);
          done := parsed.Some?;
          if done {
            pending := parsed;
          }
          len := 0;
          return;
        }
        return false;
      }
      if len >= cfg.maxLine - 1 {
        len := 0;
        return false;
      }
      buf[len] := b;
      len := len + 1;
      assert buf[..len] == old(buf[..len]) + [b];
      return false;
    }

    method Take() returns (c: Option<Command>)
      requires Valid()
      modifies this
      ensures Valid() && c == old(State()).pending && State() == old(State()).(pending := None)
    {
      c, pending := pending, None;
    }

    method Reset()
      requires Valid()
      modifies this
      ensures Valid() && State() == Parser([], None)
    {
      len, pending := 0, None;
    }
  }

  class CLI {
    const cfg: Config
    const parser: CommandParser
    const decoder: FrameDecoder
    const probeBuf: array<byte>
    var framed: bool
    var hasPending: bool
    var command: Command
    var hasFramedCommand: bool
    var commandSeq: byte
    var probeActive: bool
    var probeLen: nat
    var sent: seq<Output>   // written to the stream

    ghost function Repr(): set<object> {
      {this, parser, parser.buf, decoder, decoder.cobsBuf, decoder.payload, probeBuf}
    }

    ghost predicate Valid()
      reads Repr()
    {
      && parser.Valid() && decoder.Valid() && parser.cfg == cfg && decoder.maxPayload == cfg.maxPayload
      && probeBuf.Length == MAX_PROBE && probeLen <= MAX_PROBE && (probeActive || probeLen == 0)
      && parser.buf != probeBuf && parser.buf != decoder.cobsBuf && parser.buf != decoder.payload
      && probeBuf != decoder.cobsBuf && probeBuf != decoder.payload
    }

    ghost function Abstract(): State
      requires Valid()
      reads Repr()
    {
      State(framed, parser.State(), hasPending, decoder.State(),
            if hasFramedCommand then Some(command) else None, commandSeq,
            if probeActive then Some(probeBuf[..probeLen]) else None, sent)
    }

    constructor (cfg: Config)
      requires cfg.maxLine >= 1
      ensures Valid() && fresh(Repr()) && this.cfg == cfg && Abstract() == POWER_ON
    {
      this.cfg := cfg;
      parser := new CommandParser(cfg);
      decoder := new FrameDecoder(cfg.maxPayload);
      probeBuf := new byte[MAX_PROBE];
      framed, hasPending, hasFramedCommand, probeActive := false, false, false, false;
      command, commandSeq, probeLen, sent := Command(0, 0, []), 0, 0, [];
    }

    /** Frames longer than the encoder takes are not sent. */
    method SendFrame(t: byte, q: byte, payload: seq<byte>)
      requires Valid()
      modifies this`sent
      ensures Valid() && Abstract() == Send(old(Abstract()), t, q, payload, cfg)
    {
      if |payload| <= cfg.maxPayload {
        sent := sent + [Sent(Message(t, q, payload))];
      }
    }

    method EnterFramedMode()
      requires Valid()
      modifies this`framed, this`probeActive, this`probeLen, decoder
      ensures Valid() && Abstract() == Enter(old(Abstract()))
    {
      framed, probeActive, probeLen := true, false, 0;
      decoder.Reset();
    }

    method ExitFramedMode()
      requires Valid()
      modifies this`framed, this`hasPending, this`hasFramedCommand, parser
      ensures Valid() && Abstract() == Exit(old(Abstract()))
    {
      framed, hasPending, hasFramedCommand := false, false, false;
      parser.Reset();
    }

    /** The router, and the comms task's handlers behind it. */
    method Route(t: byte, q: byte, p: seq<byte>) returns (ok: bool)
      requires Valid()
      modifies this`framed, this`hasPending, this`hasFramedCommand, this`sent, parser
      ensures Valid() && (Abstract(), ok) == Dispatch(old(Abstract()), t, q, p, cfg)
    {
      hide GoodHello;
      if !cfg.handler {
        return false;
      }
      if t == COMMAND {
        return |p| == 6;
      } else if t == HANDSHAKE_REQ {
        if !GoodHello(p) {
          return false;
        }
        SendFrame(HANDSHAKE_RESP, q, HELLO);
      } else if t == EXIT_HANDSHAKE {
        SendFrame(ACK, q, [EXIT_HANDSHAKE]);
        ExitFramedMode();
      } else if t == METRICS_REQ {
        SendFrame(METRICS_RESP, q, cfg.snapshot);
      } else if t == HEARTBEAT {
        SendFrame(HEARTBEAT, q, []);
      } else {
        return false;
      }
      ok := true;
    }

    /** Runs a fresh decoder over the probe buffer and the delimiter. */
    method ProbeFrame() returns (r: Result)
      requires Valid() && probeActive
      ensures r == Probed(probeBuf[..probeLen], cfg)
    {
      hide Feed;
      var probeDec := new FrameDecoder(cfg.maxPayload);
      assert probeDec.State() == FRESH_DECODER;
      for i := 0 to probeLen
        invariant probeDec.Valid() && fresh(probeDec) && fresh(probeDec.cobsBuf) && fresh(probeDec.payload)
        invariant probeDec.State() == FeedAll(FRESH_DECODER, probeBuf[..i], cfg.maxPayload).0
      {
        FeedSnoc(FRESH_DECODER, probeBuf[..i], probeBuf[i], cfg.maxPayload);
        assert probeBuf[..i + 1] == probeBuf[..i] + [probeBuf[i]];
        var _ := probeDec.FeedByte(probeBuf[i]);
      }
      r := probeDec.FeedByte(DELIMITER);
    }

    method TryHandshakeProbe() returns (ok: bool)
      requires Valid() && probeActive
      modifies Repr()
      ensures Valid()
      ensures (Abstract(), ok) == TryHandshake(old(Abstract()), old(probeBuf[..probeLen]), cfg)
      ensures !ok ==> probeActive
    {
      hide Probed, Dispatch;
      if !cfg.handler {
        return false;
      }
      var r := ProbeFrame();
      if !r.Ready? || r.msgType != HANDSHAKE_REQ {
        return false;
      }
      ok := Route(r.msgType, r.seqNum, r.payload);
      if !ok {
        return false;
      }
      EnterFramedMode();
    }

    method FeedParser(b: byte)
      requires Valid()
      modifies this`hasPending, parser, parser.buf
      ensures Valid() && Abstract() == FeedText(old(Abstract()), b, cfg)
      ensures probeActive == old(probeActive)
    {
      var done := parser.FeedByte(b);
      if done {
        hasPending := true;
      }
    }

    /** One byte in text mode; `switched` says that it completed a handshake. */
    method ProcessTextByte(b: byte) returns (switched: bool)
      requires Valid() && !framed
      modifies Repr()
      ensures Valid() && Abstract() == TextByte(old(Abstract()), b, cfg) && switched == framed
    {
      hide TryHandshake, FeedText;
      ghost var s := Abstract();
      if b == DELIMITER {
        if probeActive && probeLen > 0 {
          TryHandshakeStays(s, s.probe.value, cfg);
          switched := TryHandshakeProbe();
          if switched {
            return;
          }
        }
        probeActive, probeLen := true, 0;
        assert probeBuf[..probeLen] == [];
        return false;
      }
      if probeActive {
        if probeLen < MAX_PROBE {
          probeBuf[probeLen] := b;
          probeLen := probeLen + 1;
          assert probeBuf[..probeLen] == s.probe.value + [b];
        } else {
          probeActive, probeLen := false, 0;
          FeedParser(b);
          FeedTextStays(s.(probe := None), b, cfg);
        }
        return false;
      }
      FeedParser(b);
      FeedTextStays(s, b, cfg);
      switched := false;
    }

    method ProcessTextBytes(buf: array<byte>, count: nat)
      requires Valid() && !framed && count <= buf.Length && buf !in Repr()
      modifies Repr()
      ensures Valid() && Abstract() == Pass(old(Abstract()), false, buf[..count], cfg).0
    {
      hide TextByte, FramedByte, Pass;
      ghost var s := Abstract();
      assert buf[..0] == [];
      PassNothing(s, false, cfg);
      for i := 0 to count
        invariant Valid() && !framed && buf[..count] == old(buf[..count])
        invariant Pass(s, false, buf[..i], cfg) == (Abstract(), false)
      {
        ghost var t := Abstract();
        PassSnoc(s, false, buf[..i], buf[i], cfg);
        assert buf[..i + 1] == buf[..i] + [buf[i]];
        var switched := ProcessTextByte(buf[i]);
        if switched {
          PassConcat(s, false, buf[..i + 1], buf[i + 1..count], cfg);
          assert buf[..count] == buf[..i + 1] + buf[i + 1..count];
          ProcessFramedBytesFrom(buf, i + 1, count);
          return;
        }
      }
    }

    method HandleDecodedFrame(r: Result)
      requires Valid()
      modifies this`framed, this`hasPending, this`hasFramedCommand, this`command, this`commandSeq, this`sent, parser
      ensures Valid() && Abstract() == Handle(old(Abstract()), r, cfg)
    {
      hide Dispatch;
      if !r.Ready? {
        return;
      }
      if r.msgType == COMMAND {
        if |r.payload| == 6 {
          command := Command(r.payload[0], r.payload[1], r.payload[2..]);
          hasFramedCommand, commandSeq := true, r.seqNum;
        }
        return;
      }
      var _ := Route(r.msgType, r.seqNum, r.payload);
    }

    method ProcessFramedBytesFrom(buf: array<byte>, start: nat, end: nat)
      requires Valid() && start <= end <= buf.Length && buf !in Repr()
      modifies Repr()
      ensures Valid() && Abstract() == Pass(old(Abstract()), true, buf[start..end], cfg).0
    {
      hide Pass, Feed, Handle;
      ghost var s := Abstract();
      assert buf[start..start] == [];
      PassNothing(s, true, cfg);
      for i := start to end
        invariant Valid() && buf[start..end] == old(buf[start..end])
        invariant Pass(s, true, buf[start..i], cfg) == (Abstract(), true)
      {
        PassSnoc(s, true, buf[start..i], buf[i], cfg);
        assert buf[start..i + 1] == buf[start..i] + [buf[i]];
        var r := decoder.FeedByte(buf[i]);
        HandleDecodedFrame(r);
      }
    }

    /** What the stream had, up to the size of the read buffer. */
    method Receive(buf: array<byte>, got: nat)
      requires Valid() && got <= buf.Length && buf !in Repr()
      modifies Repr()
      ensures Valid() && Abstract() == Read(old(Abstract()), buf[..got], cfg)
    {
      hide Pass;
      if !framed {
        ProcessTextBytes(buf, got);
      } else {
        assert buf[0..got] == buf[..got];
        ProcessFramedBytesFrom(buf, 0, got);
      }
    }

    predicate HasNext()
      requires Valid()
      reads Repr()
      ensures HasNext() == HasCommand(Abstract())
    {
      if framed then hasFramedCommand else hasPending
    }

    method Next() returns (c: Option<Command>)
      requires Valid()
      modifies this`hasPending, this`hasFramedCommand, parser
      ensures Valid() && (Abstract(), c) == GetCommand(old(Abstract()))
    {
      if !framed {
        if !hasPending {
          return None;
        }
        c := parser.Take();
        if c.Some? {
          hasPending := false;
        }
        return;
      }
      if !hasFramedCommand {
        return None;
      }
      hasFramedCommand := false;
      c := Some(command);
    }

    method SendAnswer(c: Command, accepted: bool)
      requires Valid()
      modifies this`sent
      ensures Valid() && Abstract() == Answer(old(Abstract()), c, accepted, cfg)
    {
      if framed {
        if accepted {
          SendFrame(ACK, commandSeq, [c.id]);
        } else {
          SendFrame(NACK, commandSeq, [c.id, c.device] + c.value);
        }
      } else {
        sent := sent + [if accepted then TextAck(c) else TextNack(c)];
      }
    }
  }

  class CommsTask {
    const cli: CLI
    const queue: LockFreeQueue<Command>

    ghost predicate Valid()
      reads cli.Repr(), queue, queue.buf
    {
      cli.Valid() && queue.Valid() && {queue, queue.buf} !! cli.Repr()
    }

    constructor (cli: CLI, queue: LockFreeQueue<Command>)
      requires cli.Valid() && queue.Valid() && {queue, queue.buf} !! cli.Repr()
      ensures Valid() && this.cli == cli && this.queue == queue
    {
      this.cli, this.queue := cli, queue;
    }

    /** Initialisation reads once and drains nothing; the queue is left alone. */
    method Init(buf: array<byte>, got: nat)
      requires Valid() && got <= buf.Length && buf !in cli.Repr()
      modifies cli.Repr()
      ensures Valid() && cli.Abstract() == Read(old(cli.Abstract()), buf[..got], cli.cfg)
      ensures queue.Queued() == old(queue.Queued())
    {
      cli.Receive(buf, got);
    }

    /** One round of the drain loop: take the pending command, push it, and say so. */
    method Round()
      requires Valid() && Coherent(cli.Abstract()) && HasCommand(cli.Abstract())
      modifies cli.Repr(), queue, queue.buf
      ensures Valid() && cli.Abstract() == DrainRound(old(cli.Abstract()), |old(queue.Queued())| < Room(), cli.cfg)
      ensures queue.Queued() == Pushed(old(queue.Queued()), old(cli.Abstract()), Room())
    {
      hide Answer, Coherent, GetCommand, HasCommand, CLI.Abstract, LockFreeQueue.Valid, LockFreeQueue.Queued,
           LockFreeQueue.Machine, CLI.Valid;
      DrainOnce(cli.Abstract(), true, cli.cfg);
      var c := cli.Next();
      assert c.Some?;
      var ok := queue.TryPush(c.value);
      cli.SendAnswer(c.value, ok);
    }

    ghost function Room(): int {
      queue.buf.Length - 1
    }

    /** The queue after the tick: a pending command goes onto it if there is room. */
    ghost function Pushed(queued: seq<Command>, s: State, room: int): seq<Command> {
      queued + Offered(s, |queued| < room)
    }

    /**
     * The comms tick. It ends because each round empties the slot it looked into; a command
     * is acknowledged exactly when it went onto the queue.
     */
    method RunTick(buf: array<byte>, got: nat)
      requires Valid() && Coherent(cli.Abstract()) && got <= buf.Length && buf !in cli.Repr()
      modifies cli.Repr(), queue, queue.buf
      ensures Valid() && Settled(cli.Abstract())
      ensures cli.Abstract() == Tick(old(cli.Abstract()), buf[..got], |old(queue.Queued())| < Room(), cli.cfg)
      ensures queue.Queued() == Pushed(old(queue.Queued()), Read(old(cli.Abstract()), buf[..got], cli.cfg), Room())
    {
      hide Pass, DrainRound, HasCommand, Coherent, GetCommand;
      ghost var s := cli.Abstract();
      ghost var q := queue.Queued();
      cli.Receive(buf, got);
      ghost var t := cli.Abstract();
      ReadKeeps(s, buf[..got], cli.cfg);
      ghost var first := true;
      while cli.HasNext()
        invariant Valid() && Coherent(cli.Abstract())
        invariant first ==> cli.Abstract() == t && queue.Queued() == q
        invariant !first ==> !HasCommand(cli.Abstract())
        invariant !first ==> cli.Abstract() == Drained(t, |q| < Room(), cli.cfg)
        invariant !first ==> queue.Queued() == Pushed(q, t, Room())
        decreases first
      {
        DrainOnce(t, |q| < Room(), cli.cfg);
        Round();
        first := false;
      }
    }
  }
}
