/** The agent as the C64 runs it: one set of buffers and registers, changed step by step. */
module AgentMachine {
  import opened Wire
  import opened Frames
  import opened TransportIds
  import opened C64Parser
  import opened Agent
  import opened AgentRuns
  import opened AgentLine
  import opened TxBuffer
  import opened Outbound
  import C64Receiver
  import UserQueue

  class Machine {
    const parser: Parser
    const gate: C64Receiver.Receiver
    const ring: UserQueue.Ring
    const tx: TxBuf
    const exec: array<byte>
    var execLen: nat
    var llmPending: bool
    var llmLen: byte
    var llmEvent: byte
    var textPending: bool
    var busy: bool
    var running: bool
    var waiting: bool
    ghost var stagings: nat
    ghost var texts: nat

    /** The buffers are distinct, and the two names of the wait are one variable. */
    ghost predicate Ready()
      reads this, parser, parser.rxBuf, gate, ring, ring.slots, tx, tx.buf, exec
    {
      && parser.Valid() && ring.Valid() && Outbound.Ready(tx)
      && parser.rxBuf != tx.buf && parser.rxBuf != exec && exec != tx.buf
      && exec.Length == 128 && execLen <= exec.Length
      && gate.txAckId == tx.txAckId && gate.txAckWait == tx.txAckWait
      && (tx.sendTotal > 1 || tx.buf[1] != LLM)
      && Agent.Valid(Abs())
    }

    ghost function Received(): seq<byte>
      reads parser.rxBuf
    {
      parser.rxBuf[..]
    }

    ghost function Command(): seq<byte>
      requires execLen <= exec.Length
      reads `execLen, exec
    {
      exec[..execLen]
    }

    ghost function Abs(): State
      requires parser.Valid() && ring.Valid() && Outbound.Ready(tx) && execLen <= exec.Length
      reads this, parser, parser.rxBuf, gate, ring, ring.slots, tx, tx.buf, exec
    {
      State(parser.Abs(), Received(),
            gate.rxLastId, gate.fdCurId, gate.ackId, gate.ackPending, gate.deferredAck,
            Outbound.Regs(tx), ring.Contents(), llmPending, llmLen, llmEvent,
            textPending, Command(), busy, running, waiting, stagings, texts)
    }

    constructor ()
      ensures Ready() && Abs() == PowerOn()
      ensures fresh(parser) && fresh(parser.rxBuf) && fresh(gate) && fresh(ring) && fresh(ring.slots)
      ensures fresh(tx) && fresh(tx.buf) && fresh(exec)
    {
      parser := new Parser();
      gate := new C64Receiver.Receiver();
      ring := new UserQueue.Ring();
      tx := new TxBuf();
      exec := new byte[128];
      execLen, llmPending, llmLen, llmEvent, textPending := 0, false, 0, EVENT_USER, false;
      busy, running, waiting := false, false, false;
      stagings, texts := 0, 0;
      new;
      assert Received() == PowerOn().buf;
      assert Outbound.Regs(tx) == PowerOn().tx && ring.Contents() == PowerOn().queue && Command() == PowerOn().text;
    }

    /** One byte from the line: the parser, and if it completes a frame, the gate and the handlers. */
    method ReceiveByte(raw: byte)
      requires Ready()
      modifies this, parser, parser.rxBuf, gate, ring, ring.slots, tx`txAckWait, exec
      ensures Ready() && Abs() == Heard(old(Abs()), raw)
    {
      var f := parser.FrameRxByte(raw);
      if f.Some? {
        Dispatch(f.value);
      }
    }

    method Dispatch(f: Frame)
      requires Ready() && parser.Abs() == Hunt
      requires |f.payload| <= BRIDGE_FRAME_MAX && parser.rxBuf[..|f.payload|] == f.payload
      modifies this, parser.rxBuf, gate, ring, ring.slots, tx`txAckWait, exec
      ensures Ready() && Abs() == Arrived(old(Abs()), f)
    {
      hide GuardedAck, C64Receiver.Gate, Gated, Entered, Load, HandleMsg, HandleDone, HandleText, HandleExec;
      hide Xor, UserQueue.Ring.Contents, Agent.Valid;
      ghost var a := Abs();
      BodyFits(a, f);
      var drain := GuardedAck(f.payload, tx.txAckId) && tx.buf[1] == LLM;
      var command := PassGate(f);
      if f.typ == ACK_TO_C64 {
        assert drain <==> GuardedAck(f.payload, a.tx.ackId) && LlmInBuffer(a);
        if drain && ring.count > 0 {
          LoadHead();
        }
        return;
      }
      if command == None {
        return;
      }
      var n := |command.value.payload|;
      BodyInBuffer(a, f, parser.rxBuf[..]);
      if f.typ == MSG {
        TakeMsg(n);
      } else if f.typ == DONE {
        TakeDone();
      } else if f.typ == TEXT {
        TakeText(n);
      } else if f.typ == EXEC {
        TakeExec(n);
      }
    }

    /** The gate, and the one wait it shares with the sender. */
    method PassGate(f: Frame) returns (command: Option<Frame>)
      requires Ready()
      modifies gate, tx`txAckWait
      ensures Ready() && Abs() == Entered(old(Abs()), f) && command == Gated(old(Abs()), f).command
    {
      hide GuardedAck, C64Receiver.Gate, Parser.Valid, Parser.Abs, UserQueue.Ring.Valid, UserQueue.Ring.Contents;
      hide Received, Command, Image, Agent.Valid, Agent.Regs, Refuses;
      ghost var a := Abs();
      EnteredValid(a, f);
      GateArguments();
      command := gate.FrameDispatch(f, waiting && !running, tx.sendPos == tx.sendTotal);
      tx.txAckWait := gate.txAckWait;
    }

    /** The gate is asked about the agent as it is. */
    lemma GateArguments()
      requires Ready()
      ensures gate.Regs() == Agent.Regs(Abs()) && ((waiting && !running) <==> Refuses(Abs()))
      ensures tx.sendPos == tx.sendTotal <==> Abs().tx.Drained()
    {}

    lemma ImageLength()
      requires tx.Valid()
      ensures |Image(tx)| == tx.sendTotal
    {}

    method TakeMsg(n: nat)
      requires Ready() && n <= MESSAGE_MAX
      modifies this, ring, ring.slots
      ensures Ready() && Abs() == HandleMsg(old(Abs()), Received()[1..1 + n])
    {
      hide Parser.Valid, Parser.Abs, UserQueue.Ring.Contents, UserQueue.Pushed, Command, Image;
      assert |Received()| == RXBUF_LEN by { Buffers(); }
      if busy {
        HandleMsgValid(Abs(), parser.rxBuf[1..1 + n]);
        ring.Enqueue(parser.rxBuf[1..1 + n]);
      } else {
        StageMessage(n);
      }
    }

    lemma Buffers()
      requires Ready()
      ensures parser.rxBuf.Length == RXBUF_LEN
    {}

    method TakeDone()
      requires Ready() && parser.Abs() == Hunt
      modifies this, parser.rxBuf, gate, ring
      ensures Ready() && Abs() == HandleDone(old(Abs()))
    {
      hide Load, Xor, UserQueue.Around;
      busy, textPending := false, false;
      gate.QueueAckCurrent();
      if ring.count > 0 {
        LoadHead();
      }
    }

    method LoadHead()
      requires Ready() && parser.Abs() == Hunt && ring.count > 0
      modifies this, parser.rxBuf, ring
      ensures Ready() && Abs() == Load(old(Abs()))
    {
      hide Parser.Valid, UserQueue.Ring.Valid, UserQueue.Ring.Contents, Command, Image, Received;
      var len := CopyHead();
      StageMessage(len);
    }

    method CopyHead() returns (len: byte)
      requires Ready() && parser.Abs() == Hunt && ring.count > 0
      modifies parser.rxBuf, ring
      ensures Ready() && parser.Abs() == Hunt
      ensures var a := old(Abs());
              var m := a.queue[0];
              && len == |m| <= MESSAGE_MAX
              && Abs() == a.(queue := a.queue[1..], buf := a.buf[..1] + m + a.buf[1 + |m|..])
    {
      hide Xor, UserQueue.Ring.Valid, UserQueue.Ring.Contents, Command, Image;
      var m := TakeHead();
      StageLoaded(parser, m);
      len := |m|;
    }

    method TakeHead() returns (m: UserQueue.Message)
      requires Ready() && ring.count > 0
      modifies ring
      ensures Ready() && |m| <= MESSAGE_MAX
      ensures var a := old(Abs()); m == a.queue[0] && Abs() == a.(queue := a.queue[1..])
    {
      hide UserQueue.Around, Parser.Valid, Parser.Abs, Command, Image, Received;
      ghost var a := Abs();
      m := ring.LoadHead();
      assert a.queue[0] == m && a.queue[1..] == ring.Contents();
    }

    method StageMessage(len: byte)
      requires Ready() && len <= MESSAGE_MAX
      modifies this
      ensures Ready()
      ensures Abs() == old(Abs()).(llmPending := true, llmLen := len, llmEvent := EVENT_USER, busy := true,
                                   stagings := old(stagings) + 1)
    {
      hide Parser.Valid, Parser.Abs, UserQueue.Ring.Valid, UserQueue.Ring.Contents, Command, Image, Received;
      llmLen, llmEvent, busy, llmPending := len, EVENT_USER, true, true;
      stagings := stagings + 1;
    }

    method TakeText(n: nat)
      requires Ready() && n <= MESSAGE_MAX
      modifies this, gate, tx`txAckWait, exec
      ensures Ready() && Abs() == HandleText(old(Abs()), Received()[1..1 + n])
    {
      hide Parser.Valid, Parser.Abs, UserQueue.Ring.Valid, UserQueue.Ring.Contents, Image, Received, Command, Released, LlmInBuffer;
      if !running && waiting {
        return;
      }
      TextProvesLlm();
      CopyExecFromRxbuf(n);
      HoldBackAck();
    }

    method HoldBackAck()
      requires Ready()
      modifies `busy, `textPending, gate`ackId, gate`deferredAck
      ensures Ready()
      ensures var a := old(Abs());
              Abs() == a.(busy := a.busy && a.running, textPending := true, ackId := a.curId, deferredAck := true)
    {
      hide Parser.Valid, Parser.Abs, UserQueue.Ring.Valid, UserQueue.Ring.Contents, Image, Received, Command;
      gate.ackId, gate.deferredAck := gate.fdCurId, true;
      textPending := true;
      if !running {
        busy := false;
      }
    }

    lemma LlmByte()
      requires Ready()
      ensures LlmInBuffer(Abs()) <==> tx.buf[1] == LLM
    {}

    /** TEXT only proves that an LLM frame arrived. */
    method TextProvesLlm()
      requires Ready()
      modifies gate`txAckWait, tx`txAckWait
      ensures Ready()
      ensures Abs() == old(Abs()).(tx := Released(old(Abs().tx), LlmInBuffer(old(Abs()))))
    {
      hide Parser.Valid, Parser.Abs, UserQueue.Ring.Valid, UserQueue.Ring.Contents, Received, Command, Image, LlmInBuffer;
      LlmByte();
      ghost var a := Abs();
      ClearLlmAckWait(tx);
      gate.txAckWait := tx.txAckWait;
      assert Abs() == a.(tx := Outbound.Regs(tx));
    }

    method TakeExec(n: nat)
      requires Ready() && n <= MESSAGE_MAX
      modifies this, gate, exec
      ensures Ready() && Abs() == HandleExec(old(Abs()), Received()[1..1 + n])
    {
      hide Parser.Valid, Parser.Abs, UserQueue.Ring.Valid, UserQueue.Ring.Contents, TxBuf.Valid, Received, Command, Image;
      if !running && !waiting {
        CopyExecFromRxbuf(n);
      }
      gate.QueueAckCurrent();
    }

    method CopyExecFromRxbuf(n: nat)
      requires Ready() && n <= MESSAGE_MAX
      modifies `execLen, `texts, exec
      ensures Ready() && |Received()| == RXBUF_LEN
      ensures Abs() == old(Abs()).(text := Received()[1..1 + n], texts := old(texts) + 1)
    {
      hide Parser.Abs, UserQueue.Ring.Valid, UserQueue.Ring.Contents, TxBuf.Valid, Image, Xor;
      CopyBehindId(parser.rxBuf, exec, n);
      execLen := n;
      texts := texts + 1;
    }

    // ---- the sender ----

    /** One pass: a held-back acknowledgment may come due and load the queue's head; otherwise age, build, send. */
    method Service(ticked: bool, lineEmpty: bool, other: Option<Frame>, room: nat) returns (sent: seq<byte>)
      requires Ready() && Agent.Proper(other) && (LoadsDeferred(Abs(), lineEmpty) ==> parser.Abs() == Hunt)
      modifies this, parser.rxBuf, gate, ring, tx, tx.buf
      ensures Ready() && Abs() == Serviced(old(Abs()), ticked, lineEmpty, other, room)
      ensures var a := old(Abs());
              sent == if LoadsDeferred(a, lineEmpty) then []
                      else ServicePass(a.tx, ticked, Next(a, other), room).sent
    {
      hide Parser.Valid, UserQueue.Ring.Contents, Command, Image, Received, Load, Next, ServicePass, Agent.Pass, Agent.Valid;
      sent := [];
      ghost var a := Abs();
      ImageLength();
      if tx.sendPos == tx.sendTotal && gate.deferredAck && !textPending && !tx.txAckWait && lineEmpty {
        ReleaseDeferred();
        if ring.count > 0 {
          LoadHead();
          return;
        }
        SameNext(a, other);
      }
      sent := RunPass(ticked, other, room);
    }

    method ReleaseDeferred()
      requires Ready()
      modifies gate`deferredAck, gate`ackPending
      ensures Ready() && Abs() == old(Abs()).(deferredAck := false, ackPending := true)
    {
      hide Parser.Valid, Parser.Abs, UserQueue.Ring.Valid, UserQueue.Ring.Contents, Command, Image, Received;
      gate.deferredAck, gate.ackPending := false, true;
    }

    method RunPass(ticked: bool, other: Option<Frame>, room: nat) returns (sent: seq<byte>)
      requires Ready() && Agent.Proper(other)
      modifies `llmPending, `textPending, gate, tx, tx.buf
      ensures Ready() && Abs() == Agent.Pass(old(Abs()), ticked, other, room)
      ensures sent == ServicePass(old(Abs()).tx, ticked, Next(old(Abs()), other), room).sent
    {
      hide Parser.Valid, Parser.Abs, UserQueue.Ring.Valid, UserQueue.Ring.Contents, Command, Image, Received, Agent.Valid;
      hide Decide, Decided, Next, SendBytes, Outbound.Built;
      ghost var a := Abs();
      Age(ticked);
      PassInSteps(a, ticked, other, room);
      SameReady(a, Decided(a.tx, Decide(a.tx, ticked)), other);
      BuildWhenFree(other);
      sent := Send(room);
    }

    method Age(ticked: bool)
      requires Ready()
      modifies gate, tx`txAckTimer, tx`txRetries, tx`sendPos, tx`txAckWait
      ensures Ready()
      ensures var a := old(Abs()); Abs() == a.(tx := Decided(a.tx, Decide(a.tx, ticked)))
    {
      hide Parser.Valid, Parser.Abs, UserQueue.Ring.Valid, UserQueue.Ring.Contents, Command, Image, Received;
      ImageLength();
      if tx.sendPos == tx.sendTotal && tx.txAckWait {
        AgeWait(tx, ticked);
        gate.txAckWait := tx.txAckWait;
      }
    }

    method BuildWhenFree(other: Option<Frame>)
      requires Ready() && Agent.Proper(other)
      modifies `llmPending, `textPending, gate, tx, tx.buf
      ensures Ready()
      ensures var a := old(Abs());
              var f := Next(a, other);
              var built := MayBuild(a.tx, f);
              Abs() == a.(tx := if built then Outbound.Built(a.tx, f.value) else a.tx,
                          llmPending := a.llmPending && !(built && other == None),
                          textPending := a.textPending && !(built && other == None && !a.llmPending))
    {
      hide Parser.Valid, Parser.Abs, UserQueue.Ring.Valid, UserQueue.Ring.Contents, Command, Image, Received;
      hide Outbound.Built, Agent.Valid;
      ImageLength();
      if tx.sendPos != tx.sendTotal || tx.txAckWait {
        return;
      }
      if other.Some? {
        BuildOther(other.value);
      } else if llmPending {
        BuildLlm();
      } else if textPending {
        BuildUser();
      }
    }

    /** The builders for STATUS, SYSTEM and RESULT are modelled on their own. */
    method BuildOther(f: Frame)
      requires Ready() && Buildable(f)
      modifies gate, tx, tx.buf
      ensures Ready()
      ensures var a := old(Abs()); Abs() == a.(tx := Outbound.Built(a.tx, f))
    {
      hide Parser.Valid, Parser.Abs, UserQueue.Ring.Valid, UserQueue.Ring.Contents, Command, Received, Image;
      BuildNext(tx, f);
      gate.AwaitAck(tx.txAckId);
    }

    lemma LlmFits()
      requires Ready()
      ensures llmLen <= MESSAGE_MAX && parser.rxBuf.Length == RXBUF_LEN
      ensures LlmFrame(Abs()) == Frame(LLM, [llmEvent] + parser.rxBuf[1..1 + llmLen]) && Buildable(LlmFrame(Abs()))
    {}

    lemma TextFits()
      requires Ready()
      ensures execLen <= MESSAGE_MAX && Command() == exec[..execLen]
    {}

    method BuildLlm()
      requires Ready()
      modifies `llmPending, gate, tx, tx.buf
      ensures Ready()
      ensures var a := old(Abs()); Abs() == a.(llmPending := false, tx := Outbound.Built(a.tx, LlmFrame(a)))
    {
      hide Parser.Abs, UserQueue.Ring.Valid, UserQueue.Ring.Contents, Command, Xor, Image;
      LlmFits();
      llmPending := false;
      BuildLlmFrame(tx, llmEvent, parser.rxBuf, llmLen);
      gate.AwaitAck(tx.txAckId);
    }

    method BuildUser()
      requires Ready()
      modifies `textPending, gate, tx, tx.buf
      ensures Ready()
      ensures var a := old(Abs()); Abs() == a.(textPending := false, tx := Outbound.Built(a.tx, Frame(USER, a.text)))
    {
      hide Parser.Valid, Parser.Abs, UserQueue.Ring.Valid, UserQueue.Ring.Contents, Received, Image, Command;
      TextFits();
      textPending := false;
      BuildUserFrame(tx, exec, execLen);
      gate.AwaitAck(tx.txAckId);
    }

    method Send(room: nat) returns (sent: seq<byte>)
      requires Ready()
      modifies tx`sendPos
      ensures Ready()
      ensures var a := old(Abs()); var p := SendBytes(a.tx, room); Abs() == a.(tx := p.tx) && sent == p.sent
    {
      hide Parser.Valid, Parser.Abs, UserQueue.Ring.Valid, UserQueue.Ring.Contents, Command, Image, Received;
      sent := SendMain(tx, room);
    }

    method EmitAck() returns (sent: seq<byte>)
      requires Ready()
      modifies gate`ackPending
      ensures Ready()
      ensures var a := old(Abs()); Abs() == a.(ackPending := false) && sent == AckImage(a.ackId)
    {
      hide Parser.Valid, Parser.Abs, UserQueue.Ring.Valid, UserQueue.Ring.Contents, Command, Image, Received, AckImage;
      gate.ackPending := false;
      sent := SendAck(gate.ackId);
    }

    method BeginHeartbeat()
      requires Ready()
      modifies this
      ensures Ready()
      ensures var a := old(Abs());
              Abs() == a.(llmPending := true, llmLen := 0, llmEvent := EVENT_HEARTBEAT, busy := true, stagings := a.stagings + 1)
    {
      hide Parser.Valid, Parser.Abs, UserQueue.Ring.Valid, UserQueue.Ring.Contents, Command, Image, Received;
      llmPending, llmLen, llmEvent, busy := true, 0, EVENT_HEARTBEAT, true;
      stagings := stagings + 1;
    }

    method EndConversation()
      requires Ready()
      modifies `busy
      ensures Ready() && Abs() == old(Abs()).(busy := false)
    {
      hide Parser.Valid, Parser.Abs, UserQueue.Ring.Valid, UserQueue.Ring.Contents, Command, Image, Received;
      busy := false;
    }

    method SetRunning(on: bool)
      requires Ready()
      modifies `running
      ensures Ready() && Abs() == old(Abs()).(running := on)
    {
      hide Parser.Valid, Parser.Abs, UserQueue.Ring.Valid, UserQueue.Ring.Contents, Command, Image, Received;
      running := on;
    }

    method SetWaiting(on: bool)
      requires Ready()
      modifies `waiting
      ensures Ready() && Abs() == old(Abs()).(waiting := on)
    {
      hide Parser.Valid, Parser.Abs, UserQueue.Ring.Valid, UserQueue.Ring.Contents, Command, Image, Received;
      waiting := on;
    }

    /** Events that change flags only. */
    method FindOut(e: Agent.Event)
      requires Ready() && Enabled(Abs(), e) && !e.Byte? && !e.Service? && !e.AckOut?
      modifies this
      ensures Ready() && Abs() == Step(old(Abs()), e)
    {
      hide Parser.Valid, Parser.Abs, UserQueue.Ring.Valid, UserQueue.Ring.Contents, Command, Image, Received, Agent.Valid;
      match e
      case Heartbeat =>
        BeginHeartbeat();
      case BusyEnds =>
        EndConversation();
      case Running(on) =>
        SetRunning(on);
      case Waiting(on) =>
        SetWaiting(on);
    }

    /** One event at the real buffers and registers, and what it puts on the line. */
    method Perform(e: Agent.Event) returns (sent: seq<byte>)
      requires Ready() && Enabled(Abs(), e)
      modifies this, parser, parser.rxBuf, gate, ring, ring.slots, tx, tx.buf, exec
      ensures Ready() && Abs() == Step(old(Abs()), e) && sent == Output(old(Abs()), e)
    {
      hide Parser.Valid, UserQueue.Ring.Valid, UserQueue.Ring.Contents, Command, Image, Received, Outbound.Ready, Outbound.Regs;
      hide Heard, Serviced, ServicePass, Releases, Next, AckImage, Agent.Valid;
      sent := [];
      match e
      case Byte(raw) =>
        ReceiveByte(raw);
      case Service(ticked, lineEmpty, other, room) =>
        sent := Service(ticked, lineEmpty, other, room);
      case AckOut =>
        sent := EmitAck();
      case _ =>
        FindOut(e);
    }
  }

  /** A machine just switched on, through any events it can go through: it is the agent of that run, and so is what it sends. */
  method Drive(m: Machine, events: seq<Agent.Event>) returns (line: seq<byte>)
    requires m.Ready() && m.Abs() == PowerOn() && Run(PowerOn(), events).Some?
    modifies m, m.parser, m.parser.rxBuf, m.gate, m.ring, m.ring.slots, m.tx, m.tx.buf, m.exec
    ensures m.Ready() && m.Abs() == Run(PowerOn(), events).value && line == Outputs(events)
  {
    hide Step, Enabled, Output, Machine.Abs, Parser.Valid, UserQueue.Ring.Valid, Outbound.Ready;
    line := [];
    for i := 0 to |events|
      invariant Run(PowerOn(), events[..i]).Some?
      invariant m.Ready() && m.Abs() == Run(PowerOn(), events[..i]).value && line == Outputs(events[..i])
    {
      RunSoFar(PowerOn(), events, i + 1);
      assert events[..i + 1][..i] == events[..i];
      var sent := m.Perform(events[i]);
      line := line + sent;
    }
    assert events[..|events|] == events;
  }

  method BuildLlmFrame(tx: TxBuf, event: byte, rx: array<byte>, len: byte)
    requires Outbound.Ready(tx) && rx != tx.buf && rx.Length == RXBUF_LEN && len <= MESSAGE_MAX
    modifies tx, tx.buf
    ensures Outbound.Ready(tx) && tx.sendTotal > 1
    ensures Outbound.Regs(tx) == Outbound.Built(old(Outbound.Regs(tx)), Frame(LLM, [event] + rx[1..1 + len]))
  {
    hide Xor;
    ghost var f := Frame(LLM, [event] + rx[1..1 + len]);
    tx.GuardBuildLlmMsg(event, rx, 1, len);
    tx.InjectTxId(f);
  }

  method BuildUserFrame(tx: TxBuf, exec: array<byte>, len: nat)
    requires Outbound.Ready(tx) && exec != tx.buf && exec.Length == 128 && len <= MESSAGE_MAX
    modifies tx, tx.buf
    ensures Outbound.Ready(tx) && tx.sendTotal > 1
    ensures Outbound.Regs(tx) == Outbound.Built(old(Outbound.Regs(tx)), Frame(USER, exec[..len]))
  {
    hide Xor;
    ghost var f := Frame(USER, exec[..len]);
    assert exec[0..0 + len] == exec[..len];
    tx.BuildFrame(USER, exec, 0, len);
    tx.InjectTxId(f);
  }

  lemma PassInSteps(a: State, ticked: bool, other: Option<Frame>, room: nat)
    requires Agent.Valid(a) && Agent.Proper(other)
    ensures var t := Decided(a.tx, Decide(a.tx, ticked));
            var f := Next(a, other);
            var built := MayBuild(t, f);
            var u := if built then Outbound.Built(t, f.value) else t;
            && t.pos <= |t.cur| && u.pos <= |u.cur|
            && ServicePass(a.tx, ticked, f, room) == SendBytes(u, room)
            && Agent.Pass(a, ticked, other, room) ==
               a.(tx := SendBytes(u, room).tx,
                  llmPending := a.llmPending && !(built && other == None),
                  textPending := a.textPending && !(built && other == None && !a.llmPending))
  {
    hide SendBytes, Outbound.Built;
    BuiltInside(Decided(a.tx, Decide(a.tx, ticked)), Next(a, other));
  }

  lemma BuiltInside(t: Tx, f: Option<Frame>)
    requires f.Some? ==> Buildable(f.value)
    ensures f.Some? ==> Outbound.Built(t, f.value).pos <= |Outbound.Built(t, f.value).cur|
  {}

  method CopyBehindId(rx: array<byte>, exec: array<byte>, n: nat)
    requires rx != exec && rx.Length == RXBUF_LEN && exec.Length == 128 && n <= MESSAGE_MAX
    modifies exec
    ensures exec[..n] == rx[1..1 + n]
  {
    for x := 0 to n
      invariant forall k :: 0 <= k < x ==> exec[k] == rx[1 + k]
    {
      exec[x] := rx[1 + x];
    }
  }

  /** The load loop: the message goes to the receive buffer behind the place of the id. */
  method StageLoaded(p: Parser, m: seq<byte>)
    requires p.Valid() && p.Abs() == Hunt && |m| <= MESSAGE_MAX
    modifies p.rxBuf
    ensures p.Valid() && p.Abs() == Hunt
    ensures p.rxBuf[..] == old(p.rxBuf[..1]) + m + old(p.rxBuf[1 + |m|..])
  {
    hide Xor;
    ghost var buf := p.rxBuf[..];
    for i := 0 to |m|
      invariant forall k :: 0 <= k < RXBUF_LEN ==> p.rxBuf[k] == if 1 <= k < 1 + i then m[k - 1] else buf[k]
    {
      p.rxBuf[1 + i] := m[i];
    }
    assert p.rxBuf[..] == buf[..1] + m + buf[1 + |m|..];
  }

  /** Aging the wait changes nothing about what would be built. */
  lemma SameReady(a: State, t: Tx, other: Option<Frame>)
    requires Agent.Valid(a) && Agent.Proper(other) && t.pos <= |t.cur|
    ensures Agent.Valid(a.(tx := t)) && Next(a.(tx := t), other) == Next(a, other)
  {}

  lemma HandleMsgValid(a: State, body: seq<byte>)
    requires Agent.Valid(a) && |body| <= MESSAGE_MAX
    ensures Agent.Valid(HandleMsg(a, body))
  {}

  lemma EnteredValid(a: State, f: Frame)
    requires Agent.Valid(a)
    ensures Agent.Valid(Entered(a, f)) && Gated(a, f).regs.txAckId == a.tx.ackId
  {
    hide GuardedAck, Fresh;
  }

  /** The body handed on stands in the receive buffer behind the id. */
  lemma BodyInBuffer(a: State, f: Frame, buf: seq<byte>)
    requires |buf| == RXBUF_LEN && |f.payload| <= BRIDGE_FRAME_MAX && buf[..|f.payload|] == f.payload
    ensures var c := Gated(a, f).command; c.Some? ==> c.value.payload == buf[1..1 + |c.value.payload|]
  {
    hide GuardedAck, Fresh;
    if f.payload != [] {
      assert f.payload[1..] == buf[..|f.payload|][1..] == buf[1..|f.payload|];
    }
  }
}
