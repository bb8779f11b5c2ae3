/** What the agent puts on the line: its sender is the one whose runs are studied on their own, so the bridge takes what it builds. */
module AgentLine {
  import opened Wire
  import opened Frames
  import opened C64Parser
  import opened C64Receiver
  import opened Agent
  import opened AgentRuns
  import L = LineRuns
  import Outbound
  import SenderRuns
  import EndToEnd
  import Inbox
  import GoCodec

  /** Nothing received, nothing built. */
  function PowerOn(): (a: State)
    ensures Valid(a)
  {
    State(Hunt, Zeros(RXBUF_LEN), 0, 0, 0, false, false, SenderRuns.POWER_ON.tx, [],
          false, 0, EVENT_USER, false, [], false, false, false, 0, 0)
  }

  function Zeros(n: nat): (z: seq<byte>)
    ensures |z| == n && forall i :: 0 <= i < n ==> z[i] == 0
  {
    seq(n, _ => 0)
  }

  /** The bytes a step puts on the line. */
  function Output(a: State, e: Event): seq<byte>
    requires Valid(a) && Enabled(a, e)
  {
    match e
    case Service(ticked, lineEmpty, other, room) =>
      if LoadsDeferred(a, lineEmpty) then []
      else Outbound.ServicePass(a.tx, ticked, Next(a, other), room).sent
    case AckOut => Outbound.AckImage(a.ackId)
    case _ => []
  }

  function Outputs(events: seq<Event>): seq<byte>
    requires Run(PowerOn(), events).Some?
  {
    if events == [] then [] else
    var init := events[..|events| - 1];
    Outputs(init) + Output(Run(PowerOn(), init).value, events[|events| - 1])
  }

  /** What a step means for the sender and the line. */
  function Share(a: State, e: Event): (s: seq<L.Event>)
    requires Valid(a) && Enabled(a, e)
    ensures L.AllAdmissible(s)
  {
    match e
    case Byte(raw) =>
      var f := React(a.mode, raw).dispatched;
      if f.Some? then Effects(a, f.value) else []
    case Service(ticked, lineEmpty, other, room) =>
      if LoadsDeferred(a, lineEmpty) then []
      else [L.Sender(Outbound.Service(ticked, Next(a, other), room))]
    case AckOut => [L.AckOut(a.ackId)]
    case _ => []
  }

  /** What an arriving frame means for the sender: an acknowledgment, a new frame, a TEXT. */
  function Effects(a: State, f: Frame): (s: seq<L.Event>)
    ensures L.AllAdmissible(s)
  {
    if f.typ == ACK_TO_C64 then [L.Sender(Outbound.Acked(f.payload))]
    else if Gated(a, f).command == None then []
    else
      (if f.payload != [] then [L.Sender(Outbound.InboundAccepted)] else []) +
      (if f.typ == TEXT && !Refuses(a) then [L.Sender(Outbound.TextAccepted)] else [])
  }

  function Shares(events: seq<Event>): (s: seq<L.Event>)
    requires Run(PowerOn(), events).Some?
    ensures L.AllAdmissible(s)
  {
    if events == [] then [] else
    var init := events[..|events| - 1];
    Shares(init) + Share(Run(PowerOn(), init).value, events[|events| - 1])
  }

  /** The frames the agent builds. */
  function Built(events: seq<Event>): seq<Frame>
    requires Run(PowerOn(), events).Some?
  {
    if events == [] then [] else
    var init := events[..|events| - 1];
    var f := Builds(Run(PowerOn(), init).value, events[|events| - 1]);
    Built(init) + if f.Some? then [f.value] else []
  }

  lemma Append(t: seq<L.Event>, e: L.Event)
    requires L.AllAdmissible(t) && L.Admissible(e)
    ensures L.AllAdmissible(t + [e]) && L.Run(t + [e]) == L.Step(L.Run(t), e)
  {
    hide L.Step;
    assert (t + [e])[..|t|] == t;
  }

  /** The log after an event of the sender. */
  lemma SenderOnly(t: seq<L.Event>, e: Outbound.Event)
    requires L.AllAdmissible(t) && Outbound.Admissible(e)
    ensures L.AllAdmissible(t + [L.Sender(e)])
    ensures L.Run(t).log.tx.pos <= |L.Run(t).log.tx.cur|
    ensures L.Run(t + [L.Sender(e)]).log == SenderRuns.Step(L.Run(t).log, e)
  {
    hide L.LineInv, SenderRuns.Step, SenderRuns.Emitted;
    L.PosInside(L.Run(t).log) by { LogHolds(t); }
    Append(t, L.Sender(e));
  }

  lemma LogHolds(t: seq<L.Event>)
    requires L.AllAdmissible(t)
    ensures SenderRuns.Inv(L.Run(t).log)
  {
    hide L.Run, L.Cut, L.Counted, SenderRuns.Inv, SenderRuns.Ended;
  }

  /** The sender's registers and what it has built. */
  predicate Follows(a: State, built: seq<Frame>, t: seq<L.Event>) {
    L.AllAdmissible(t) && L.Run(t).log.tx == a.tx && L.Run(t).log.built == built
  }

  lemma EffectsFollow(a: State, b: State, f: Frame, built: seq<Frame>, t: seq<L.Event>)
    requires Valid(a) && |f.payload| <= BRIDGE_FRAME_MAX && Follows(a, built, t)
    requires b == Arrived(a, f)
    ensures Follows(b, built, t + Effects(a, f))
  {
    hide L.Run, L.LineInv, GuardedAck, C64Receiver.Gate, Gated, Entered, LlmInBuffer, Outbound.Released, Load, HandleMsg, HandleDone, HandleExec, HandleText;
    var c, command := Entered(a, f), Gated(a, f).command;
    GateReleases(a, f);
    ArrivedTx(a, f);
    if f.typ == ACK_TO_C64 {
      SenderOnly(t, Outbound.Acked(f.payload));
    } else if command.Some? {
      TwoEffects(a, c, f, built, t);
    } else {
      assert t + [] == t;
    }
  }

  lemma ArrivedTx(a: State, f: Frame)
    requires Valid(a) && |f.payload| <= BRIDGE_FRAME_MAX
    ensures var c := Entered(a, f);
            Arrived(a, f).tx ==
            if f.typ == TEXT && Gated(a, f).command.Some? && !Refuses(a) then Outbound.Released(c.tx, LlmInBuffer(c)) else c.tx
  {
    hide GuardedAck, Gated, Entered, Load, HandleMsg, HandleDone, HandleExec, HandleText, LlmInBuffer, Outbound.Released;
    var c, command := Entered(a, f), Gated(a, f).command;
    BodyFits(a, f);
    EnteredLeaves(a, f);
    if c.queue != [] { LoadKeepsTx(c); }
    if command.Some? { HandlersKeepTx(c, command.value.payload); }
  }

  lemma TwoEffects(a: State, c: State, f: Frame, built: seq<Frame>, t: seq<L.Event>)
    requires Follows(a, built, t) && f.typ != ACK_TO_C64 && Gated(a, f).command.Some?
    requires c.tx == if f.payload != [] then Outbound.Released(a.tx, a.tx.Drained()) else a.tx
    ensures Follows(c.(tx := if f.typ == TEXT && !Refuses(a) then Outbound.Released(c.tx, LlmInBuffer(c)) else c.tx), built,
                    t + Effects(a, f))
  {
    hide L.Run, L.LineInv, Gated, SenderRuns.Inv, SenderRuns.Ended;
    var u := t;
    if f.payload != [] {
      SenderOnly(t, Outbound.InboundAccepted);
      u := t + [L.Sender(Outbound.InboundAccepted)];
    }
    assert Follows(c, built, u);
    if f.typ == TEXT && !Refuses(a) {
      SenderOnly(u, Outbound.TextAccepted);
      assert u + [L.Sender(Outbound.TextAccepted)] == t + Effects(a, f);
    } else {
      assert u == t + Effects(a, f);
    }
  }

  lemma GateReleases(a: State, f: Frame)
    ensures var c := Entered(a, f).tx;
            && (f.typ == ACK_TO_C64 ==> c == Outbound.Released(a.tx, GuardedAck(f.payload, a.tx.ackId)))
            && (f.typ != ACK_TO_C64 && Gated(a, f).command == None ==> c == a.tx)
            && (f.typ != ACK_TO_C64 && Gated(a, f).command.Some? ==>
                  c == if f.payload != [] then Outbound.Released(a.tx, a.tx.Drained()) else a.tx)
  {
    hide GuardedAck;
  }

  lemma LoadKeepsTx(a: State)
    requires Valid(a) && a.queue != []
    ensures Load(a).tx == a.tx
  {}

  lemma HandlersKeepTx(a: State, body: seq<byte>)
    requires Valid(a) && |body| <= MESSAGE_MAX
    ensures HandleMsg(a, body).tx == a.tx && HandleDone(a).tx == a.tx && HandleExec(a, body).tx == a.tx
    ensures HandleText(a, body).tx == if Refuses(a) then a.tx else Outbound.Released(a.tx, LlmInBuffer(a))
  {}

  lemma ServiceFollows(a: State, e: Event, built: seq<Frame>, t: seq<L.Event>)
    requires Valid(a) && Enabled(a, e) && e.Service? && Follows(a, built, t)
    ensures var f := Builds(a, e);
            Follows(Step(a, e), built + (if f.Some? then [f.value] else []), t + Share(a, e))
  {
    hide L.Run, L.LineInv, Next, Serviced, Outbound.ServicePass, Outbound.Decide, Outbound.Decided, SenderRuns.Step, Releases;
    ServicedTx(a, e.ticked, e.lineEmpty, e.other, e.room);
    if LoadsDeferred(a, e.lineEmpty) {
      assert t + [] == t && built + [] == built;
    } else {
      var ready := Next(a, e.other);
      SenderOnly(t, Outbound.Service(e.ticked, ready, e.room));
      SenderBuilds(L.Run(t).log, e.ticked, ready, e.room);
      assert built + [] == built;
    }
  }

  lemma ServicedTx(a: State, ticked: bool, lineEmpty: bool, other: Option<Frame>, room: nat)
    requires Valid(a) && Agent.Proper(other)
    ensures Serviced(a, ticked, lineEmpty, other, room).tx ==
            if LoadsDeferred(a, lineEmpty) then a.tx
            else Outbound.ServicePass(a.tx, ticked, Next(a, other), room).tx
  {
    hide Outbound.ServicePass, Load, Next, MayStart;
    SameNext(a, other);
    if LoadsDeferred(a, lineEmpty) {
      LoadKeepsTx(a.(deferredAck := false, ackPending := true));
    }
  }

  lemma SenderBuilds(l: SenderRuns.Log, ticked: bool, ready: Option<Frame>, room: nat)
    requires l.tx.pos <= |l.tx.cur| && (ready.Some? ==> Outbound.Buildable(ready.value))
    ensures var m := SenderRuns.Step(l, Outbound.Service(ticked, ready, room));
            var d := Outbound.Decided(l.tx, Outbound.Decide(l.tx, ticked));
            && m.tx == Outbound.ServicePass(l.tx, ticked, ready, room).tx
            && m.built == l.built + if d.Drained() && !d.wait && ready.Some? then [ready.value] else []
  {
    hide Outbound.ServicePass, Outbound.Decide, Outbound.Decided;
    assert l.built + [] == l.built;
  }

  lemma SameNext(a: State, other: Option<Frame>)
    requires Valid(a) && Agent.Proper(other)
    ensures Next(a.(deferredAck := false, ackPending := true), other) == Next(a, other)
  {}

  lemma {:induction false} AgentFollows(events: seq<Event>)
    requires Run(PowerOn(), events).Some?
    ensures Follows(Run(PowerOn(), events).value, Built(events), Shares(events))
  {
    hide Step, Enabled, Follows, Share, Builds;
    if events == [] {
      StartFollows();
    } else {
      var init, e := events[..|events| - 1], events[|events| - 1];
      AgentFollows(init);
      StepFollows(Run(PowerOn(), init).value, e, Built(init), Shares(init));
    }
  }

  lemma StartFollows()
    ensures Follows(PowerOn(), [], [])
  {}

  lemma ByteFollows(a: State, e: Event, built: seq<Frame>, t: seq<L.Event>)
    requires Valid(a) && e.Byte? && Follows(a, built, t)
    ensures Follows(Step(a, e), built, t + Share(a, e))
  {
    hide L.Run, L.LineInv, React, Stored, Parsed, Arrived, Effects, L.AllAdmissible;
    var f, b := React(a.mode, e.raw).dispatched, Parsed(a, e.raw);
    DispatchedFits(a.mode, e.raw);
    ParsedKeeps(a, e.raw);
    assert t + [] == t;
    if f.Some? {
      EffectsFollow(b, Arrived(b, f.value), f.value, built, t);
      SameEffects(a, b, f.value);
    }
  }

  lemma StepFollows(a: State, e: Event, built: seq<Frame>, t: seq<L.Event>)
    requires Valid(a) && Enabled(a, e) && Follows(a, built, t)
    ensures var f := Builds(a, e);
            Follows(Step(a, e), built + (if f.Some? then [f.value] else []), t + Share(a, e))
  {
    hide L.Run, L.LineInv, React, Stored, Arrived, Agent.Heard, Serviced, Effects, Next, Outbound.ServicePass, L.AllAdmissible;
    assert built + [] == built && t + [] == t;
    match e
    case Byte(_) =>
      ByteFollows(a, e, built, t);
    case Service(_, _, _, _) =>
      ServiceFollows(a, e, built, t);
    case AckOut =>
      AckFollows(a, built, t);
    case _ =>
  }

  lemma SameEffects(a: State, b: State, f: Frame)
    requires b == a.(mode := b.mode, buf := b.buf)
    ensures Effects(a, f) == Effects(b, f)
  {
    hide C64Receiver.Gate;
  }

  lemma AckFollows(a: State, built: seq<Frame>, t: seq<L.Event>)
    requires Follows(a, built, t)
    ensures Follows(a.(ackPending := false), built, t + [L.AckOut(a.ackId)])
  {
    hide Outbound.AckImage, L.LineInv;
    LogHolds(t);
    L.PosInside(L.Run(t).log);
    Append(t, L.AckOut(a.ackId));
  }

  // ---- the bytes on the line ----

  /** One more event adds its bytes to the line, and nothing else does. */
  lemma WireAfter(t: seq<L.Event>, e: L.Event)
    requires L.AllAdmissible(t) && L.Admissible(e)
    ensures L.AllAdmissible(t + [e])
    ensures var x := L.Run(t).log;
            && x.tx.pos <= |x.tx.cur|
            && L.Run(t + [e]).wire == L.Run(t).wire +
               match e case Sender(s) => SenderRuns.Emitted(x, s) case AckOut(id) => Outbound.AckImage(id)
  {
    hide L.LineInv, SenderRuns.Step, SenderRuns.Emitted, Outbound.AckImage;
    LogHolds(t);
    L.PosInside(L.Run(t).log);
    Append(t, e);
  }

  predicate Silent(e: L.Event) {
    e.Sender? && !e.e.Service?
  }

  lemma {:induction false} SilentWire(t: seq<L.Event>, es: seq<L.Event>)
    requires L.AllAdmissible(t) && forall i :: 0 <= i < |es| ==> Silent(es[i])
    ensures L.AllAdmissible(t + es) && L.Run(t + es).wire == L.Run(t).wire
    decreases |es|
  {
    hide L.Run, L.LineInv;
    if es == [] {
      assert t + es == t;
    } else {
      WireAfter(t, es[0]);
      SilentWire(t + [es[0]], es[1..]);
      assert t + [es[0]] + es[1..] == t + es;
    }
  }

  lemma ShareWire(a: State, e: Event, built: seq<Frame>, t: seq<L.Event>)
    requires Valid(a) && Enabled(a, e) && Follows(a, built, t)
    ensures L.AllAdmissible(t + Share(a, e)) && L.Run(t + Share(a, e)).wire == L.Run(t).wire + Output(a, e)
  {
    hide L.Run, L.LineInv, React, C64Receiver.Gate, Next, Releases, Outbound.ServicePass, Outbound.AckImage;
    var share, none := Share(a, e), [];
    assert L.Run(t).wire + none == L.Run(t).wire;
    if e.Service? && share != [] {
      WireAfter(t, share[0]);
    } else if e.AckOut? {
      WireAfter(t, share[0]);
    } else {
      SilentWire(t, share);
    }
  }

  /** What the agent puts on the line is the wire of its sender's run. */
  lemma {:induction false} OutputsAreWire(events: seq<Event>)
    requires Run(PowerOn(), events).Some?
    ensures L.Run(Shares(events)).wire == Outputs(events)
  {
    hide Step, Enabled, Share, Builds, Output, L.LineInv;
    AgentFollows(events);
    if events != [] {
      var init, e := events[..|events| - 1], events[|events| - 1];
      AgentFollows(init);
      OutputsAreWire(init);
      ShareWire(Run(PowerOn(), init).value, e, Built(init), Shares(init));
    }
  }

  /**
   * From power-on, whatever the agent receives and however its passes fall: the frames it builds,
   * messages and replies among them, are what the bridge takes, once and in order, as long as its
   * acknowledgments keep out of its transmissions.
   */
  lemma AgentIsTaken(events: seq<Event>)
    requires Run(PowerOn(), events).Some? && L.Tidy(Shares(events))
    ensures var t := L.Run(Shares(events));
            && t.log.built == Built(events)
            && Inbox.FreshFrames(GoCodec.DecodeAll(Outputs(events))) ==
               L.DulledAll(if EndToEnd.NewestSent(t.log) then t.log.built else t.log.built[..|t.log.built| - 1])
  {
    hide Run, L.Run, L.LineInv, L.Tidy, Outputs, Inbox.FreshFrames, GoCodec.DecodeAll;
    AgentFollows(events);
    OutputsAreWire(events);
    EndToEnd.SentIsTaken(Shares(events));
  }
}
