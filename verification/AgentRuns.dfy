/** When a waiting chat message or reply goes out unharmed, over all runs of the C64 agent. */
module AgentRuns {
  import opened Wire
  import opened Frames
  import opened TransportIds
  import opened C64Parser
  import opened C64Streams
  import opened SharedBuffer
  import opened Agent
  import opened C64Receiver
  import Outbound
  import UserQueue

  // ---- runs ----

  function Run(a: State, events: seq<Event>): (r: Option<State>)
    requires Valid(a)
    ensures r.Some? ==> Valid(r.value)
  {
    if events == [] then Some(a) else
    match Run(a, events[..|events| - 1])
    case None => None
    case Some(b) => if Enabled(b, events[|events| - 1]) then Some(Step(b, events[|events| - 1])) else None
  }

  lemma {:induction false} RunSoFar(a: State, events: seq<Event>, k: nat)
    requires Valid(a) && Run(a, events).Some? && k <= |events|
    ensures Run(a, events[..k]).Some?
    decreases |events|
  {
    hide Step, Enabled;
    if k == |events| {
      assert events[..k] == events;
    } else {
      RunSoFar(a, events[..|events| - 1], k);
      assert events[..|events| - 1][..k] == events[..k];
    }
  }

  lemma RunNext(a: State, x: seq<Event>, e: Event)
    requires Valid(a)
    ensures Run(a, []) == Some(a)
    ensures Run(a, x + [e]) == match Run(a, x)
                               case None => None
                               case Some(b) => if Enabled(b, e) then Some(Step(b, e)) else None
  {
    hide Step, Enabled;
    assert (x + [e])[..|x|] == x;
  }

  lemma {:induction false} RunConcat(a: State, x: seq<Event>, y: seq<Event>)
    requires Valid(a) && Run(a, x).Some?
    ensures Run(a, x + y) == Run(Run(a, x).value, y)
    decreases |y|
  {
    hide Run, Step, Enabled;
    if y == [] {
      assert x + y == x;
      RunNext(Run(a, x).value, [], Heartbeat);
    } else {
      var init, e := y[..|y| - 1], y[|y| - 1];
      RunConcat(a, x, init);
      assert y == init + [e] && x + y == (x + init) + [e];
      RunNext(a, x + init, e);
      RunNext(Run(a, x).value, init, e);
    }
  }

  lemma RunSplit(a: State, events: seq<Event>, i: nat, j: nat)
    requires Valid(a) && Run(a, events).Some? && i <= j <= |events|
    ensures Run(a, events[..i]).Some? && Run(Run(a, events[..i]).value, events[i..j]) == Run(a, events[..j])
  {
    hide Run;
    RunSoFar(a, events, i);
    assert events[..j] == events[..i] + events[i..j];
    RunConcat(a, events[..i], events[i..j]);
  }

  /** The received bytes of a run. */
  function Received(events: seq<Event>): seq<byte> {
    if events == [] then [] else
    Received(events[..|events| - 1]) + if events[|events| - 1].Byte? then [events[|events| - 1].raw] else []
  }

  /** The frame a step builds. */
  function Builds(a: State, e: Event): Option<Frame>
    requires Valid(a) && Enabled(a, e)
  {
    if e.Service? && !LoadsDeferred(a, e.lineEmpty) && MayStart(a, e.ticked) then Next(a, e.other)
    else None
  }

  predicate BuildsType(a: State, e: Event, typ: byte)
    requires Valid(a) && Enabled(a, e)
  {
    Builds(a, e).Some? && Builds(a, e).value.typ == typ
  }

  /** No step of the run builds a frame of this type. */
  predicate NoneBuilt(a: State, events: seq<Event>, typ: byte)
    requires Valid(a) && Run(a, events).Some?
  {
    events != [] ==>
      var init := events[..|events| - 1];
      NoneBuilt(a, init, typ) && !BuildsType(Run(a, init).value, events[|events| - 1], typ)
  }

  /** The frame a received byte completes. */
  function Completes(a: State, e: Event): Option<Frame>
    requires Valid(a)
  {
    if e.Byte? then React(a.mode, e.raw).dispatched else None
  }

  /** A byte completes a frame of this type, and the gate hands it on. */
  predicate Accepts(a: State, e: Event, typ: byte)
    requires Valid(a)
  {
    var f := Completes(a, e);
    f.Some? && f.value.typ == typ && Gated(a, f.value).command.Some?
  }

  // ---- chat messages ----

  /**
   * The head of the queue is loaded: at DONE, at the acknowledgment of an LLM frame, and when a
   * held-back TEXT acknowledgment is released.
   */
  predicate Loads(a: State, e: Event)
    requires Valid(a)
  {
    a.queue != [] &&
    match e
    case Byte(_) =>
      var f := Completes(a, e);
      || Accepts(a, e, DONE)
      || (f.Some? && f.value.typ == ACK_TO_C64 && GuardedAck(f.value.payload, a.tx.ackId) && LlmInBuffer(a))
    case Service(_, lineEmpty, _, _) => Releases(a, lineEmpty)
    case _ => false
  }

  /** Another message takes the place directly: it arrives while no conversation is under way. */
  predicate Restages(a: State, e: Event)
    requires Valid(a)
  {
    e.Heartbeat? || (Accepts(a, e, MSG) && !a.busy)
  }

  predicate Undisturbed(a: State, events: seq<Event>)
    requires Valid(a) && Run(a, events).Some?
  {
    events != [] ==>
      var init := events[..|events| - 1];
      var b, e := Run(a, init).value, events[|events| - 1];
      Undisturbed(a, init) && !Loads(b, e) && !Restages(b, e)
  }

  lemma WaitByte(a: State, e: Event)
    requires Valid(a) && Enabled(a, e) && a.llmPending && e.Byte?
    ensures var b, again := Step(a, e), Loads(a, e) || Restages(a, e);
            && b.llmPending
            && b.stagings == a.stagings + (if again then 1 else 0)
            && b.mode == (if e.Byte? then React(a.mode, e.raw).mode else a.mode)
            && (!again ==>
                  && b.llmLen == a.llmLen && b.llmEvent == a.llmEvent
                  && b.buf == if e.Byte? then Stored(a.mode, a.buf, e.raw) else a.buf)
  {
    hide React, Stored, Arrived, Parsed, Gated, GuardedAck, LlmInBuffer, Refuses, Valid;
    var f := Completes(a, e);
    DispatchedFits(a.mode, e.raw) by { ModeValid(a); }
    ParsedKeeps(a, e.raw);
    if f.Some? {
      var b := Parsed(a, e.raw);
      ArrivalStep(b, f.value);
      SameGated(a, b, f.value);
    }
  }

  /** While the message waits, one step counts as a staging exactly if it loads or restages, and otherwise moves only the parser. */
  lemma WaitStep(a: State, e: Event)
    requires Valid(a) && Enabled(a, e) && a.llmPending && !BuildsType(a, e, LLM)
    ensures var b, again := Step(a, e), Loads(a, e) || Restages(a, e);
            && b.llmPending
            && b.stagings == a.stagings + (if again then 1 else 0)
            && b.mode == (if e.Byte? then React(a.mode, e.raw).mode else a.mode)
            && (!again ==>
                  && b.llmLen == a.llmLen && b.llmEvent == a.llmEvent
                  && b.buf == if e.Byte? then Stored(a.mode, a.buf, e.raw) else a.buf)
  {
    hide React, Stored, Agent.Heard, Serviced, Gated, BuildsType, LlmInBuffer, Releases;
    if e.Byte? {
      WaitByte(a, e);
    } else if e.Service? {
      ServiceStep(a, e);
    }
  }

  lemma ParsedKeeps(a: State, raw: byte)
    requires Valid(a)
    ensures var b := Parsed(a, raw);
            && b.mode == React(a.mode, raw).mode && b.buf == Stored(a.mode, a.buf, raw)
            && b == a.(mode := b.mode, buf := b.buf)
            && b.stagings == a.stagings && b.queue == a.queue && b.busy == a.busy && b.llmPending == a.llmPending
            && b.llmLen == a.llmLen && b.llmEvent == a.llmEvent && b.tx == a.tx
            && b.texts == a.texts && b.text == a.text && b.textPending == a.textPending && b.deferredAck == a.deferredAck
            && b.running == a.running && b.waiting == a.waiting && b.ackPending == a.ackPending
  {
    hide React, Stored;
  }

  lemma SameGated(a: State, b: State, f: Frame)
    requires b == a.(mode := b.mode, buf := b.buf)
    ensures Gated(a, f) == Gated(b, f) && LlmInBuffer(a) == LlmInBuffer(b) && Refuses(a) == Refuses(b)
  {
    hide Gate;
  }

  lemma DispatchedFits(m: Mode, raw: byte)
    requires m.Valid()
    ensures var f := React(m, raw).dispatched; f.Some? ==> |f.value.payload| <= BRIDGE_FRAME_MAX
  {}

  /** The gate moves registers only. */
  lemma EnteredKeeps(a: State, f: Frame)
    ensures var b := Entered(a, f);
            b == a.(rxLastId := b.rxLastId, curId := b.curId, ackId := b.ackId, ackPending := b.ackPending,
                    deferredAck := b.deferredAck, tx := a.tx.(wait := b.tx.wait))
  {
    hide Gate;
  }

  /** What a handler may do to a waiting message: nothing, or put another in its place. */
  predicate Leaves(a: State, b: State, again: bool) {
    && b.stagings == a.stagings + (if again then 1 else 0)
    && (a.llmPending ==> b.llmPending) && b.mode == a.mode
    && (!again ==> b.llmLen == a.llmLen && b.llmEvent == a.llmEvent && b.buf == a.buf)
  }

  lemma MsgLeaves(a: State, body: seq<byte>)
    requires Valid(a) && |body| <= MESSAGE_MAX
    ensures Leaves(a, HandleMsg(a, body), !a.busy)
  {
    hide UserQueue.Pushed;
  }

  lemma DoneLeaves(a: State)
    requires Valid(a)
    ensures Leaves(a, HandleDone(a), a.queue != [])
  {}

  lemma LoadLeaves(a: State)
    requires Valid(a) && a.queue != []
    ensures Leaves(a, Load(a), true)
  {}

  lemma TextLeaves(a: State, body: seq<byte>)
    requires Valid(a) && |body| <= MESSAGE_MAX
    ensures Leaves(a, HandleText(a, body), false)
  {}

  lemma ExecLeaves(a: State, body: seq<byte>)
    requires Valid(a) && |body| <= MESSAGE_MAX
    ensures Leaves(a, HandleExec(a, body), false)
  {}

  lemma EnteredLeaves(a: State, f: Frame)
    requires Valid(a)
    ensures var b := Entered(a, f);
            Leaves(a, b, false) && Valid(b) && b.busy == a.busy && b.queue == a.queue
            && (a.deferredAck ==> b.deferredAck) && b.running == a.running && b.waiting == a.waiting
            && b.text == a.text && b.texts == a.texts && b.textPending == a.textPending
  {
    hide Gate;
    EnteredKeeps(a, f);
    StaysHeldBack(a, f);
  }

  lemma ArrivalStep(a: State, f: Frame)
    requires Valid(a) && |f.payload| <= BRIDGE_FRAME_MAX
    ensures var b := Arrived(a, f);
            var command := Gated(a, f).command.Some?;
            var again := (a.queue != [] && ((f.typ == DONE && command)
                            || (f.typ == ACK_TO_C64 && GuardedAck(f.payload, a.tx.ackId) && LlmInBuffer(a))))
                         || (f.typ == MSG && command && !a.busy);
            && b.stagings == a.stagings + (if again then 1 else 0)
            && (a.llmPending ==> b.llmPending) && b.mode == a.mode
            && (!again ==> b.llmLen == a.llmLen && b.llmEvent == a.llmEvent && b.buf == a.buf)
  {
    hide GuardedAck, Gated, Entered, Load, HandleMsg, HandleDone, HandleText, HandleExec, LlmInBuffer;
    EnteredLeaves(a, f);
    BodyFits(a, f);
    var b, command := Entered(a, f), Gated(a, f).command;
    if b.queue != [] { LoadLeaves(b); }
    if command.Some? {
      MsgLeaves(b, command.value.payload);
      DoneLeaves(b);
      TextLeaves(b, command.value.payload);
      ExecLeaves(b, command.value.payload);
    }
  }

  /** The body handed on is the payload without the id, or empty. */
  lemma BodyFits(a: State, f: Frame)
    requires |f.payload| <= BRIDGE_FRAME_MAX
    ensures var c := Gated(a, f).command; c.Some? ==> |c.value.payload| <= MESSAGE_MAX
  {
    hide GuardedAck, Fresh;
  }

  lemma ServiceStep(a: State, e: Event)
    requires Valid(a) && Enabled(a, e) && e.Service? && a.llmPending && !BuildsType(a, e, LLM)
    ensures Leaves(a, Step(a, e), LoadsDeferred(a, e.lineEmpty))
  {
    hide Outbound.ServicePass, Load, Outbound.Decide, Outbound.Decided, Pass;
    if Releases(a, e.lineEmpty) {
      var b := a.(deferredAck := false, ackPending := true);
      if b.queue != [] {
        LoadLeaves(b);
      } else {
        PassLeaves(b, e.ticked, e.other, e.room);
      }
    } else {
      PassLeaves(a, e.ticked, e.other, e.room);
    }
  }

  lemma PassLeaves(a: State, ticked: bool, other: Option<Frame>, room: nat)
    requires Valid(a) && Agent.Proper(other) && a.llmPending
    requires !(MayStart(a, ticked) && Next(a, other).Some? && Next(a, other).value.typ == LLM)
    ensures Leaves(a, Pass(a, ticked, other, room), false)
  {
    hide Outbound.ServicePass, MayStart;
  }

  lemma {:induction false} WaitRun(a: State, events: seq<Event>)
    requires Valid(a) && a.llmPending && Run(a, events).Some? && NoneBuilt(a, events, LLM)
    ensures a.mode.Valid() && |a.buf| == RXBUF_LEN
    ensures var b := Run(a, events).value;
            && b.llmPending && b.stagings >= a.stagings
            && b.mode == Feed(a.mode, Received(events)).mode
            && (b.stagings == a.stagings <==> Undisturbed(a, events))
            && (Undisturbed(a, events) ==>
                  && b.llmLen == a.llmLen && b.llmEvent == a.llmEvent
                  && b.buf == BufferAfter(a.mode, a.buf, Received(events)))
  {
    hide Step, Loads, Restages, Enabled, BuildsType, React, Stored;
    if events != [] {
      var init, e := events[..|events| - 1], events[|events| - 1];
      WaitRun(a, init);
      var b := Run(a, init).value;
      WaitStep(b, e);
      ByteFed(a.mode, a.buf, Received(init), e);
      assert Received(init) + [] == Received(init);
    }
  }

  lemma ByteFed(m: Mode, buf: seq<byte>, s: seq<byte>, e: Event)
    requires m.Valid() && |buf| == RXBUF_LEN
    ensures e.Byte? ==>
              var m', buf' := Feed(m, s).mode, BufferAfter(m, buf, s);
              && Feed(m, s + [e.raw]).mode == React(m', e.raw).mode
              && BufferAfter(m, buf, s + [e.raw]) == Stored(m', buf', e.raw)
  {
    hide React, Stored;
    if e.Byte? {
      var m', buf' := Feed(m, s).mode, BufferAfter(m, buf, s);
      FeedConcat(m, s, [e.raw]);
      FeedByte(m', e.raw);
      BufferConcat(m, buf, s, [e.raw]);
      assert BufferAfter(m', buf', [e.raw]) == Stored(m', buf', e.raw) by {
        assert [e.raw][0] == e.raw && [e.raw][1..] == [];
      }
    }
  }

  /**
   * The LLM frame that goes out next carries the message that waits, exactly if no queued message
   * was loaded and no other was staged in between, and no byte received in between was left in its
   * place that differs.
   */
  lemma MessageGoesOutExactly(a: State, events: seq<Event>, e: Event, msg: seq<byte>)
    requires Valid(a) && a.llmPending && a.llmLen == |msg| && Staged(a.buf, msg)
    requires Run(a, events).Some? && NoneBuilt(a, events, LLM)
    requires Enabled(Run(a, events).value, e) && BuildsType(Run(a, events).value, e, LLM)
    ensures var b := Run(a, events).value;
            b.stagings == a.stagings && Builds(b, e) == Some(Frame(LLM, [a.llmEvent] + msg))
            <==> Undisturbed(a, events) && Spares(Stores(a.mode, Received(events)), msg)
  {
    hide Run, NoneBuilt, Undisturbed, Stores, Spares, BufferAfter, Feed, Received;
    var b := Run(a, events).value;
    WaitRun(a, events);
    if Undisturbed(a, events) {
      SurvivesExactly(a.mode, a.buf, Received(events), msg);
      LlmIs(b, e, a.llmEvent, msg);
    }
  }

  lemma LlmIs(b: State, e: Event, event: byte, msg: seq<byte>)
    requires Valid(b) && Enabled(b, e) && BuildsType(b, e, LLM) && b.llmPending
    requires b.llmEvent == event && b.llmLen == |msg|
    ensures Builds(b, e) == Some(Frame(LLM, [event] + msg)) <==> Staged(b.buf, msg)
  {
    var x, y := [event] + b.buf[1..1 + b.llmLen], [event] + msg;
    assert x[1..] == b.buf[1..1 + b.llmLen] && y[1..] == msg;
  }

  // ---- replies ----

  /** A TEXT or EXEC fills the command buffer. */
  predicate Refills(a: State, e: Event)
    requires Valid(a)
  {
    (Accepts(a, e, TEXT) && !Refuses(a)) || (Accepts(a, e, EXEC) && !a.running && !a.waiting)
  }

  /** No DONE, and no other TEXT or EXEC that is not refused. */
  predicate Settled(a: State, events: seq<Event>)
    requires Valid(a) && Run(a, events).Some?
  {
    events != [] ==>
      var init := events[..|events| - 1];
      var b, e := Run(a, init).value, events[|events| - 1];
      Settled(a, init) && !Accepts(b, e, DONE) && !Refills(b, e)
  }

  lemma TextArrival(a: State, f: Frame)
    requires Valid(a) && |f.payload| <= BRIDGE_FRAME_MAX
    ensures var b := Arrived(a, f);
            var command := Gated(a, f).command.Some?;
            var refill := (f.typ == TEXT && command && !Refuses(a)) || (f.typ == EXEC && command && !a.running && !a.waiting);
            && b.texts == a.texts + (if refill then 1 else 0)
            && (!refill ==> b.text == a.text)
            && b.textPending == (if f.typ == DONE && command then false else a.textPending || (refill && f.typ == TEXT))
            && (a.deferredAck ==> b.deferredAck)
  {
    hide GuardedAck, Gated, Entered, Load, HandleMsg, HandleDone, HandleText, HandleExec, LlmInBuffer, Leaves;
    EnteredLeaves(a, f);
    BodyFits(a, f);
    var b, command := Entered(a, f), Gated(a, f).command;
    if b.queue != [] { LoadKeepsText(b); }
    if command.Some? {
      MsgKeepsText(b, command.value.payload);
      DoneDropsText(b);
      TextTakesText(b, command.value.payload);
      ExecTakesText(b, command.value.payload);
    }
  }

  /** What a handler may do to the command buffer and to a reply that waits in it. */
  predicate Treats(a: State, b: State, refill: bool, pending: bool) {
    && b.texts == a.texts + (if refill then 1 else 0)
    && (!refill ==> b.text == a.text)
    && b.textPending == pending && (a.deferredAck ==> b.deferredAck)
  }

  lemma LoadKeepsText(a: State)
    requires Valid(a) && a.queue != []
    ensures Treats(a, Load(a), false, a.textPending)
  {}

  lemma MsgKeepsText(a: State, body: seq<byte>)
    requires Valid(a) && |body| <= MESSAGE_MAX
    ensures Treats(a, HandleMsg(a, body), false, a.textPending)
  {
    hide UserQueue.Pushed;
  }

  lemma DoneDropsText(a: State)
    requires Valid(a)
    ensures Treats(a, HandleDone(a), false, false)
  {}

  lemma TextTakesText(a: State, body: seq<byte>)
    requires Valid(a) && |body| <= MESSAGE_MAX
    ensures Treats(a, HandleText(a, body), !Refuses(a), a.textPending || !Refuses(a))
  {}

  lemma ExecTakesText(a: State, body: seq<byte>)
    requires Valid(a) && |body| <= MESSAGE_MAX
    ensures Treats(a, HandleExec(a, body), !a.running && !a.waiting, a.textPending)
  {}

  lemma StaysHeldBack(a: State, f: Frame)
    ensures a.deferredAck ==> Entered(a, f).deferredAck
  {
    hide GuardedAck;
  }

  lemma TextService(a: State, e: Event)
    requires Valid(a) && Enabled(a, e) && e.Service? && !BuildsType(a, e, USER)
    ensures var b := Step(a, e);
            && b.texts == a.texts && b.text == a.text && b.textPending == a.textPending
            && (a.textPending && a.deferredAck ==> b.deferredAck && b.ackPending == a.ackPending && b.ackId == a.ackId)
  {
    hide Outbound.ServicePass, Load, MayStart, Pass;
    if Releases(a, e.lineEmpty) {
      var b := a.(deferredAck := false, ackPending := true);
      if b.queue != [] {
        LoadKeepsText(b);
      } else {
        PassKeepsText(b, e.ticked, e.other, e.room);
      }
    } else {
      PassKeepsText(a, e.ticked, e.other, e.room);
    }
  }

  lemma PassKeepsText(a: State, ticked: bool, other: Option<Frame>, room: nat)
    requires Valid(a) && Agent.Proper(other)
    requires !(MayStart(a, ticked) && Next(a, other).Some? && Next(a, other).value.typ == USER)
    ensures var b := Pass(a, ticked, other, room);
            && b.texts == a.texts && b.text == a.text && b.textPending == a.textPending
            && b.deferredAck == a.deferredAck && b.ackPending == a.ackPending && b.ackId == a.ackId
  {
    hide Outbound.ServicePass, MayStart;
  }

  lemma TextByte(a: State, e: Event)
    requires Valid(a) && Enabled(a, e) && e.Byte?
    ensures var b := Step(a, e);
            && b.texts == a.texts + (if Refills(a, e) then 1 else 0)
            && (!Refills(a, e) ==> b.text == a.text)
            && (Accepts(a, e, DONE) ==> !b.textPending)
            && (!Accepts(a, e, DONE) && a.textPending ==> b.textPending)
            && (!Accepts(a, e, DONE) && !Refills(a, e) ==> b.textPending == a.textPending)
            && (a.textPending && a.deferredAck ==> b.deferredAck)
  {
    hide React, Stored, Arrived, Parsed, Gated, GuardedAck, LlmInBuffer, Refuses, Valid;
    var f := Completes(a, e);
    DispatchedFits(a.mode, e.raw) by { ModeValid(a); }
    ParsedKeeps(a, e.raw);
    if f.Some? {
      var b := Parsed(a, e.raw);
      TextArrival(b, f.value);
      SameGated(a, b, f.value);
    }
  }

  lemma ModeValid(a: State)
    requires Valid(a)
    ensures a.mode.Valid()
  {}

  lemma TextStep(a: State, e: Event)
    requires Valid(a) && Enabled(a, e) && !BuildsType(a, e, USER)
    ensures var b := Step(a, e);
            && b.texts == a.texts + (if Refills(a, e) then 1 else 0)
            && (!Refills(a, e) ==> b.text == a.text)
            && (Accepts(a, e, DONE) ==> !b.textPending)
            && (!Accepts(a, e, DONE) && a.textPending ==> b.textPending)
            && (!Accepts(a, e, DONE) && !Refills(a, e) ==> b.textPending == a.textPending)
            && (a.textPending && a.deferredAck ==> b.deferredAck)
  {
    hide React, Agent.Heard, Serviced, Gated, BuildsType, Refuses;
    if e.Byte? {
      TextByte(a, e);
    } else if e.Service? {
      TextService(a, e);
    }
  }

  lemma {:induction false} TextRun(a: State, events: seq<Event>)
    requires Valid(a) && a.textPending && Run(a, events).Some? && NoneBuilt(a, events, USER)
    ensures var b := Run(a, events).value;
            && b.texts >= a.texts && (b.texts == a.texts ==> b.text == a.text)
            && (b.texts == a.texts && b.textPending <==> Settled(a, events))
            && (Settled(a, events) && a.deferredAck ==> b.deferredAck)
  {
    hide Step, Accepts, Refills, Valid, Enabled, BuildsType;
    if events != [] {
      var init, e := events[..|events| - 1], events[|events| - 1];
      TextRun(a, init);
      TextStep(Run(a, init).value, e);
    }
  }

  /** A pass at which it is the reply's turn. */
  predicate TextTurn(a: State, e: Event)
    requires Valid(a) && Enabled(a, e)
  {
    e.Service? && e.other == None && !a.llmPending && MayStart(a, e.ticked) && !LoadsDeferred(a, e.lineEmpty)
  }

  /**
   * When its turn comes, the reply goes out as a USER frame exactly if no DONE and no other TEXT or
   * EXEC was accepted since.
   */
  lemma TextGoesOutExactly(a: State, events: seq<Event>, e: Event, text: seq<byte>)
    requires Valid(a) && a.textPending && a.text == text
    requires Run(a, events).Some? && NoneBuilt(a, events, USER)
    requires Enabled(Run(a, events).value, e) && TextTurn(Run(a, events).value, e)
    ensures var b := Run(a, events).value;
            b.texts == a.texts && Builds(b, e) == Some(Frame(USER, text)) <==> Settled(a, events)
  {
    hide Run, NoneBuilt, Settled, MayStart, Releases;
    TextRun(a, events);
  }

  // ---- what the acknowledgment of a reply says ----

  /** Every other bridge frame carries an id, and not this one's unless it is a copy. */
  predicate OthersDiffer(a: State, e: Event, id: byte)
    requires Valid(a)
  {
    var f := Completes(a, e);
    f.Some? && f.value.typ < RESULT && f.value.typ != ACK_TO_C64 ==>
      f.value.payload != [] && (f.value.typ == TEXT || f.value.payload[0] != id)
  }

  predicate AllDiffer(a: State, events: seq<Event>, id: byte)
    requires Valid(a) && Run(a, events).Some?
  {
    events != [] ==>
      var init := events[..|events| - 1];
      AllDiffer(a, init, id) && OthersDiffer(Run(a, init).value, events[|events| - 1], id)
  }

  /** The id's acknowledgment can go out at once. */
  predicate Due(a: State, id: byte) {
    a.ackPending && a.ackId == id
  }

  lemma DueArrival(a: State, f: Frame, id: byte)
    requires Valid(a) && |f.payload| <= BRIDGE_FRAME_MAX && a.deferredAck && !Due(a, id)
    requires f.typ < RESULT && f.typ != ACK_TO_C64 ==> f.payload != [] && (f.typ == TEXT || f.payload[0] != id)
    requires !(f.typ == TEXT && Gated(a, f).command.Some? && !Refuses(a))
    ensures !Due(Arrived(a, f), id)
  {
    hide GuardedAck, Gated, Entered, Load, HandleMsg, HandleDone, HandleText, HandleExec, LlmInBuffer, Leaves, Due;
    EnteredLeaves(a, f);
    EnteredNotDue(a, f, id);
    BodyFits(a, f);
    var b, command := Entered(a, f), Gated(a, f).command;
    if b.queue != [] { LoadNotDue(b, id); }
    if command.Some? { HandlersNotDue(b, command.value.payload, id); }
  }

  lemma EnteredNotDue(a: State, f: Frame, id: byte)
    requires a.deferredAck && !Due(a, id)
    requires f.typ < RESULT && f.typ != ACK_TO_C64 ==> f.payload != [] && (f.typ == TEXT || f.payload[0] != id)
    requires !(f.typ == TEXT && Gated(a, f).command.Some? && !Refuses(a))
    ensures !Due(Entered(a, f), id)
    ensures f.typ < RESULT && f.typ != ACK_TO_C64 ==> Entered(a, f).curId == f.payload[0]
  {
    hide GuardedAck, Fresh;
  }

  lemma LoadNotDue(b: State, id: byte)
    requires Valid(b) && b.queue != [] && !Due(b, id)
    ensures !Due(Load(b), id)
  {}

  lemma HandlersNotDue(b: State, body: seq<byte>, id: byte)
    requires Valid(b) && |body| <= MESSAGE_MAX && !Due(b, id)
    ensures !Due(HandleMsg(b, body), id)
    ensures b.curId != id ==> !Due(HandleDone(b), id) && !Due(HandleExec(b, body), id)
    ensures Refuses(b) ==> !Due(HandleText(b, body), id)
  {
    hide UserQueue.Pushed;
  }

  lemma PassKeepsAcks(a: State, ticked: bool, other: Option<Frame>, room: nat)
    requires Valid(a) && Agent.Proper(other)
    ensures var b := Pass(a, ticked, other, room);
            b.deferredAck == a.deferredAck && b.ackPending == a.ackPending && b.ackId == a.ackId
  {
    hide Outbound.ServicePass, MayStart, Next;
    var b := Pass(a, ticked, other, room);
    assert b == a.(tx := b.tx, llmPending := b.llmPending, textPending := b.textPending);
  }

  /** Unless a pass releases it, what is held back stays held back. */
  lemma NotDueStep(a: State, e: Event, id: byte)
    requires Valid(a) && Enabled(a, e) && !(e.Service? && Releases(a, e.lineEmpty))
    requires a.deferredAck && !Due(a, id) && OthersDiffer(a, e, id) && !Refills(a, e)
    ensures !Due(Step(a, e), id) && Step(a, e).deferredAck
  {
    hide React, Stored, Arrived, Gate, GuardedAck, Next, MayStart, Outbound.ServicePass, Pass, Releases;
    if e.Service? {
      PassKeepsAcks(a, e.ticked, e.other, e.room);
    } else if e.Byte? {
      var f := React(a.mode, e.raw).dispatched;
      DispatchedFits(a.mode, e.raw);
      if f.Some? {
        var b := Parsed(a, e.raw);
        DueArrival(b, f.value, id);
        TextArrival(b, f.value);
      }
    }
  }

  /** At event k a pass releases the held-back acknowledgment, and before it the USER frame was built. */
  predicate ReleasedAfterReply(a: State, events: seq<Event>, k: nat)
    requires Valid(a) && Run(a, events).Some? && k < |events|
  {
    RunSoFar(a, events, k);
    var b := Run(a, events[..k]).value;
    events[k].Service? && Releases(b, events[k].lineEmpty) && !NoneBuilt(a, events[..k], USER)
  }

  /**
   * Whenever an acknowledgment of this id can go out, a pass has released it before: with the USER
   * frame built, the send buffer drained, its wait over and the line empty.
   */
  ghost predicate DueOnlyAfterReply(a: State, id: byte)
    requires Valid(a)
  {
    forall events: seq<Event> ::
      Run(a, events).Some? && Settled(a, events) && AllDiffer(a, events, id) && Due(Run(a, events).value, id) ==>
        exists k :: 0 <= k < |events| && ReleasedAfterReply(a, events, k)
  }

  lemma {:induction false} HeldBack(a: State, events: seq<Event>, id: byte) returns (k: nat)
    requires Valid(a) && a.textPending && a.deferredAck && !Due(a, id)
    requires Run(a, events).Some? && Settled(a, events) && AllDiffer(a, events, id)
    ensures k <= |events|
    ensures if k < |events| then ReleasedAfterReply(a, events, k)
            else Run(a, events).value.deferredAck && !Due(Run(a, events).value, id)
  {
    hide Step, Enabled, BuildsType, Accepts, Refills, OthersDiffer, Releases, Due;
    k := 0;
    if events != [] {
      var init, e := events[..|events| - 1], events[|events| - 1];
      k := HeldBack(a, init, id);
      var b := Run(a, init).value;
      if k < |init| {
        assert init[..k] == events[..k];
      } else if e.Service? && Releases(b, e.lineEmpty) {
        OnlyOnceBuilt(a, init, e.lineEmpty);
      } else {
        NotDueStep(b, e, id);
        k := |events|;
      }
    }
  }

  /** A release needs the reply to be gone. */
  lemma OnlyOnceBuilt(a: State, events: seq<Event>, lineEmpty: bool)
    requires Valid(a) && a.textPending && Run(a, events).Some? && Settled(a, events)
    requires Releases(Run(a, events).value, lineEmpty)
    ensures !NoneBuilt(a, events, USER)
  {
    hide Run, Settled, NoneBuilt;
    if NoneBuilt(a, events, USER) {
      TextRun(a, events);
    }
  }

  /**
   * After a TEXT was accepted, its acknowledgment waits for its USER frame to be built and sent in
   * full, however long that takes, exactly if none was still due for an earlier frame: that one
   * would go out with the TEXT's id.  A DONE, or another TEXT or EXEC, ends the promise.
   */
  lemma AckMeansReplySentExactly(a: State, e: Event)
    requires Valid(a) && Enabled(a, e) && Accepts(a, e, TEXT) && !Refuses(a)
    requires Completes(a, e).value.payload != []
    ensures DueOnlyAfterReply(Step(a, e), Completes(a, e).value.payload[0]) <==> !a.ackPending
  {
    hide NoneBuilt, Settled, AllDiffer, ReleasedAfterReply;
    var b, id := Step(a, e), Completes(a, e).value.payload[0];
    AcceptedText(a, e);
    if a.ackPending {
      NothingYet(b, id);
    } else {
      forall events: seq<Event> |
        Run(b, events).Some? && Settled(b, events) && AllDiffer(b, events, id) && Due(Run(b, events).value, id)
        ensures exists k :: 0 <= k < |events| && ReleasedAfterReply(b, events, k)
      {
        var k := HeldBack(b, events, id);
        assert ReleasedAfterReply(b, events, k);
      }
    }
  }

  lemma NothingYet(a: State, id: byte)
    requires Valid(a) && Due(a, id)
    ensures !DueOnlyAfterReply(a, id)
  {
    var none: seq<Event> := [];
    assert Run(a, none).Some? && Settled(a, none) && AllDiffer(a, none, id);
  }

  lemma AcceptedText(a: State, e: Event)
    requires Valid(a) && Enabled(a, e) && Accepts(a, e, TEXT) && !Refuses(a)
    requires Completes(a, e).value.payload != []
    ensures var b, f := Step(a, e), Completes(a, e).value;
            && b.textPending && b.deferredAck && b.text == f.payload[1..]
            && b.ackId == f.payload[0] && b.ackPending == a.ackPending
  {
    hide React, Stored, Arrived, Parsed, Gated, Refuses, Valid;
    var f, b := Completes(a, e).value, Parsed(a, e.raw);
    DispatchedFits(a.mode, e.raw) by { ModeValid(a); }
    ParsedKeeps(a, e.raw);
    SameGated(a, b, f);
    AcceptedArrival(b, f);
  }

  lemma AcceptedArrival(a: State, f: Frame)
    requires Valid(a) && 0 < |f.payload| <= BRIDGE_FRAME_MAX
    requires f.typ == TEXT && Gated(a, f).command.Some? && !Refuses(a)
    ensures var b := Arrived(a, f);
            && b.textPending && b.deferredAck && b.text == f.payload[1..]
            && b.ackId == f.payload[0] && b.ackPending == a.ackPending
  {
    hide Fresh;
  }
}
