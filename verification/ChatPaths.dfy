/**
 * Chat text all the way through the C64: in with a frame of the bridge, through the agent's buffers
 * while other events go on, and out to the bridge in a frame of the C64's own.
 */
module ChatPaths {
  import opened Wire
  import opened Frames
  import opened TransportIds
  import opened Streams
  import opened C64Parser
  import opened C64Streams
  import opened SharedBuffer
  import opened Agent
  import opened AgentRuns
  import opened AgentLine
  import L = LineRuns
  import C64Receiver
  import ChatText
  import EndToEnd
  import GoCodec
  import Inbox
  import Outbound
  import UserQueue

  // ---- a frame of the bridge reaches the agent ----

  function Bytes(w: seq<byte>): (es: seq<Event>)
    ensures |es| == |w| && forall i :: 0 <= i < |w| ==> es[i] == Byte(w[i])
  {
    seq(|w|, i requires 0 <= i < |w| => Byte(w[i]))
  }

  /** Bytes that complete no frame move the parser and the receive buffer only. */
  lemma {:induction false} QuietRun(a: State, s: seq<byte>)
    requires Valid(a) && Feed(a.mode, s).frames == []
    ensures Run(a, Bytes(s)) == Some(a.(mode := Feed(a.mode, s).mode, buf := BufferAfter(a.mode, a.buf, s)))
  {
    hide React, Stored, Arrived, Feed, BufferAfter;
    if s == [] {
      NothingHeard(a);
    } else {
      var init, c := s[..|s| - 1], s[|s| - 1];
      assert s == init + [c];
      FeedConcat(a.mode, init, [c]);
      QuietRun(a, init);
      assert Bytes(s)[..|s| - 1] == Bytes(init);
      FeedByte(Feed(a.mode, init).mode, c);
      ByteFed(a.mode, a.buf, init, Byte(c));
    }
  }

  lemma NothingHeard(a: State)
    requires Valid(a)
    ensures Feed(a.mode, []).mode == a.mode && BufferAfter(a.mode, a.buf, []) == a.buf
  {}

  /** Up to the checksum a frame only fills the buffer. */
  lemma AllButTheChecksum(buf: seq<byte>, w: seq<byte>, g: Frame)
    requires |buf| == RXBUF_LEN && Carries(w, g) && BridgeFrame(g)
    ensures var n := |g.payload|;
            && |w| == n + 4 && Chk(g.typ, g.payload).Valid()
            && Feed(Hunt, w[..n + 3]) == Heard(Chk(g.typ, g.payload), [])
            && BufferAfter(Hunt, buf, w[..n + 3]) == g.payload + buf[n..]
            && React(Chk(g.typ, g.payload), w[n + 3]) == Reaction(Hunt, Some(g))
  {
    hide Feed, BufferAfter, Xor;
    var n := |g.payload|;
    var u, c := w[..n + 3], w[n + 3];
    IntactShape(w, g);
    ShapedParts(w, g.typ, n);
    FrameOverlays(Hunt, buf, w, g.typ, n);
    FeedHead(Hunt, w[..3], g.typ, n);
    FeedRest(g.typ, n, w[3..n + 3]);
    FeedConcat(Hunt, w[..3], w[3..n + 3]);
    assert u == w[..3] + w[3..n + 3] && w == u + [c];
    BufferConcat(Hunt, buf, u, [c]);
    NothingStored(Chk(g.typ, g.payload), BufferAfter(Hunt, buf, u), c);
  }

  /** A frame that arrives whole is dispatched with its payload in front of the receive buffer. */
  lemma FrameArrives(a: State, w: seq<byte>, g: Frame)
    requires Valid(a) && a.mode == Hunt && Carries(w, g) && BridgeFrame(g)
    ensures Run(a, Bytes(w)) == Some(Arrived(Overlaid(a, g.payload), g))
  {
    hide React, Stored, Arrived, Agent.Heard, Feed, BufferAfter, Carries, Run;
    var n := |g.payload|;
    AllButTheChecksum(a.buf, w, g);
    QuietRun(a, w[..n + 3]);
    assert Bytes(w) == Bytes(w[..n + 3]) + [Byte(w[n + 3])];
    RunNext(a, Bytes(w[..n + 3]), Byte(w[n + 3]));
    LastByte(Overlaid(a, g.payload), w[n + 3], g);
  }

  lemma LastByte(b: State, c: byte, g: Frame)
    requires Valid(b) && BridgeFrame(g) && Chk(g.typ, g.payload).Valid()
    requires React(Chk(g.typ, g.payload), c) == Reaction(Hunt, Some(g))
    ensures Valid(b.(mode := Chk(g.typ, g.payload)))
    ensures Agent.Heard(b.(mode := Chk(g.typ, g.payload)), c) == Arrived(b.(mode := Hunt), g)
  {
    hide React, Arrived;
    StoresInPayloadOnly(g, b.buf, c);
  }

  lemma StoresInPayloadOnly(g: Frame, buf: seq<byte>, c: byte)
    requires Chk(g.typ, g.payload).Valid() && |buf| == RXBUF_LEN
    ensures Stored(Chk(g.typ, g.payload), buf, c) == buf
  {}

  function Overlaid(a: State, p: seq<byte>): (b: State)
    requires Valid(a) && |p| <= BRIDGE_FRAME_MAX
    ensures Valid(b)
  {
    a.(buf := p + a.buf[|p|..])
  }

  /** A message waits to be built into an LLM frame. */
  predicate Waits(a: State, msg: seq<byte>) {
    a.llmPending && a.llmEvent == EVENT_USER && a.llmLen == |msg| && Staged(a.buf, msg)
  }

  // ---- what each frame of the bridge does to the agent ----

  /** After a new frame: its payload in front of the receive buffer, its number the newest, the wait over if the send buffer was drained. */
  function Noted(a: State, n: nat, f: Frame): (b: State)
    requires Valid(a) && ChatText.FitsLine(f)
    ensures Valid(b)
  {
    Overlaid(a, [IdOf(n)] + f.payload).(rxLastId := IdOf(n), curId := IdOf(n), tx := a.tx.(wait := a.tx.wait && !a.tx.Drained()))
  }

  /** The same with the frame's acknowledgment due. */
  function Met(a: State, n: nat, f: Frame): (b: State)
    requires Valid(a) && ChatText.FitsLine(f)
    ensures Valid(b)
  {
    Noted(a, n, f).(ackId := IdOf(n), ackPending := true)
  }

  /** A frame of the bridge, new to the C64, whose bytes arrive when the parser hunts. */
  predicate New(a: State, w: seq<byte>, n: nat, f: Frame) {
    && Valid(a) && a.mode == Hunt && Fresh(IdOf(n), a.rxLastId)
    && ChatText.FitsLine(f) && Carries(w, WithID(IdOf(n), f))
  }

  /** Up to the handler. */
  lemma NewFrame(a: State, w: seq<byte>, n: nat, f: Frame)
    requires New(a, w, n, f) && f.typ < RESULT && f.typ != ACK_TO_C64
    ensures var g, o := WithID(IdOf(n), f), Overlaid(a, [IdOf(n)] + f.payload);
            && |g.payload| <= BRIDGE_FRAME_MAX && Run(a, Bytes(w)) == Some(Arrived(o, g))
            && Gated(o, g).command == Some(f)
            && Entered(o, g) == if f.typ != TEXT then Met(a, n, f)
                                else if a.waiting && !a.running then Noted(a, n, f)
                                else Noted(a, n, f).(ackId := IdOf(n), deferredAck := true)
  {
    hide Carries, IdOf, Fresh, Run;
    var g := WithID(IdOf(n), f);
    FrameArrives(a, w, g);
    assert g.payload[1..] == f.payload;
  }

  /** The bridge's MSG frame: staged if no conversation is under way, else put in the queue. */
  lemma MessageArrives(a: State, w: seq<byte>, n: nat, text: seq<ChatText.Rune>)
    requires Valid(a) && a.mode == Hunt && Fresh(IdOf(n), a.rxLastId)
    requires Carries(w, WithID(IdOf(n), ChatText.MsgFrame(text)))
    ensures var r, msg := Run(a, Bytes(w)), ChatText.MsgFrame(text).payload;
            var b := Met(a, n, ChatText.MsgFrame(text));
            && r.Some? && SevenBit(msg) && b.buf[1..1 + |msg|] == msg
            && (a.busy ==> r.value == b.(queue := UserQueue.Pushed(a.queue, msg)))
            && (!a.busy ==>
                  && Waits(r.value, msg)
                  && r.value == b.(llmPending := true, llmLen := |msg|, llmEvent := EVENT_USER, busy := true,
                                   stagings := a.stagings + 1))
  {
    hide Carries, IdOf, Fresh, ChatText.Ascii, UserQueue.Pushed, Run, Gated, Entered;
    var f := ChatText.MsgFrame(text);
    NewFrame(a, w, n, f);
    BodyOverlaid(a, IdOf(n), f.payload);
  }

  lemma BodyOverlaid(a: State, id: byte, body: seq<byte>)
    requires Valid(a) && |body| <= MESSAGE_MAX
    ensures Overlaid(a, [id] + body).buf[1..1 + |body|] == body
  {
    var p := [id] + body;
    assert Overlaid(a, p).buf[..|p|] == p && Overlaid(a, p).buf[1..1 + |body|] == p[1..];
  }

  /** A receive buffer with a message in its place. */
  function Staging(buf: seq<byte>, msg: seq<byte>): seq<byte>
    requires |buf| == RXBUF_LEN && |msg| <= MESSAGE_MAX
  {
    buf[..1] + msg + buf[1 + |msg|..]
  }

  /**
   * The bridge's DONE frame ends the conversation and drops a reply that still waits; if messages
   * are queued, the next conversation begins at once with the oldest.
   */
  lemma DoneArrives(a: State, w: seq<byte>, n: nat, f: Frame)
    requires New(a, w, n, f) && f.typ == DONE
    ensures var r, c := Run(a, Bytes(w)), Met(a, n, f);
            && r.Some?
            && (a.queue == [] ==> r.value == c.(busy := false, textPending := false))
            && (a.queue != [] ==>
                  && Waits(r.value, a.queue[0])
                  && r.value == c.(busy := true, textPending := false, queue := a.queue[1..], buf := Staging(c.buf, a.queue[0]),
                                   llmPending := true, llmLen := |a.queue[0]|, llmEvent := EVENT_USER,
                                   stagings := a.stagings + 1))
  {
    hide Carries, IdOf, Fresh, Run, Gated, Entered;
    NewFrame(a, w, n, f);
    var c := Met(a, n, f).(busy := false, textPending := false);
    if a.queue != [] { LoadWaits(c); }
  }

  /** After a DONE with nothing queued the next message does not wait for another: it is staged. */
  lemma DoneThenMessage(a: State, done: seq<byte>, w: seq<byte>, n: nat, f: Frame, text: seq<ChatText.Rune>)
    requires New(a, done, n, f) && f.typ == DONE && a.queue == []
    requires Carries(w, WithID(IdOf(n + 1), ChatText.MsgFrame(text)))
    ensures var r := Run(a, Bytes(done) + Bytes(w));
            r.Some? && Waits(r.value, ChatText.MsgFrame(text).payload) && r.value.queue == []
  {
    hide Carries, IdOf, Fresh, Run, ChatText.Ascii;
    DoneArrives(a, done, n, f);
    NextIsFresh(n);
    MessageArrives(Run(a, Bytes(done)).value, w, n + 1, text);
    RunConcat(a, Bytes(done), Bytes(w));
  }

  /** A load puts the oldest queued message in the place of whatever waits there. */
  lemma LoadStages(a: State, e: Event)
    requires Valid(a) && Enabled(a, e) && Loads(a, e)
    ensures var b := Step(a, e);
            Waits(b, a.queue[0]) && b.queue == a.queue[1..] && b.busy && b.stagings == a.stagings + 1
  {
    hide React, Stored, C64Receiver.Gate, GuardedAck, Outbound.ServicePass, Load;
    match e
    case Byte(raw) =>
      var f := React(a.mode, raw).dispatched.value;
      var b := a.(mode := React(a.mode, raw).mode, buf := Stored(a.mode, a.buf, raw));
      DispatchedFits(a.mode, raw);
      EnteredLeaves(b, f);
      LoadWaits(Entered(b, f));
      LoadWaits(Entered(b, f).(busy := false, textPending := false, ackId := Entered(b, f).curId, ackPending := true));
    case Service(_, _, _, _) =>
      LoadWaits(a.(deferredAck := false, ackPending := true));
  }

  lemma LoadWaits(a: State)
    requires Valid(a) && a.queue != []
    ensures var b := Load(a);
            Waits(b, a.queue[0]) && b.queue == a.queue[1..] && b.busy && b.stagings == a.stagings + 1
    ensures Load(a) == a.(busy := true, queue := a.queue[1..], buf := Staging(a.buf, a.queue[0]), llmPending := true,
                          llmLen := |a.queue[0]|, llmEvent := EVENT_USER, stagings := a.stagings + 1)
  {
    var m := a.queue[0];
    assert (a.buf[..1] + m + a.buf[1 + |m|..])[1..1 + |m|] == m;
  }

  /**
   * The bridge's TEXT frame: refused while a command waits and no program runs; otherwise the reply
   * waits in the command buffer and its acknowledgment is held back.
   */
  lemma TextArrives(a: State, w: seq<byte>, n: nat, f: Frame)
    requires New(a, w, n, f) && f.typ == TEXT
    ensures var r, c := Run(a, Bytes(w)), Noted(a, n, f);
            && r.Some?
            && (a.waiting && !a.running ==> r.value == c)
            && (!(a.waiting && !a.running) ==>
                  r.value == c.(text := f.payload, textPending := true, texts := a.texts + 1,
                                ackId := IdOf(n), deferredAck := true, busy := a.busy && a.running,
                                tx := a.tx.(wait := a.tx.wait && !a.tx.Drained() && !LlmInBuffer(a))))
  {
    hide Carries, IdOf, Fresh, Run, Gated, Entered;
    NewFrame(a, w, n, f);
  }

  /** The bridge's EXEC frame: its command goes to the command buffer unless BASIC is busy; it is acknowledged in either case. */
  lemma ExecArrives(a: State, w: seq<byte>, n: nat, f: Frame)
    requires New(a, w, n, f) && f.typ == EXEC
    ensures var r, c := Run(a, Bytes(w)), Met(a, n, f);
            r == Some(if a.running || a.waiting then c else c.(text := f.payload, texts := a.texts + 1))
  {
    hide Carries, IdOf, Fresh, Run, Gated, Entered;
    NewFrame(a, w, n, f);
  }

  /** Any other new frame of the bridge is acknowledged, and touches neither messages nor texts. */
  lemma OtherArrives(a: State, w: seq<byte>, n: nat, f: Frame)
    requires New(a, w, n, f) && f.typ < RESULT && f.typ !in {ACK_TO_C64, MSG, DONE, TEXT, EXEC}
    ensures Run(a, Bytes(w)) == Some(Met(a, n, f))
  {
    hide Carries, IdOf, Fresh, Run, Gated, Entered;
    NewFrame(a, w, n, f);
  }

  /** An old frame of the bridge is acknowledged again, unless it is a TEXT while one is held back, and does nothing else. */
  lemma StaleArrives(a: State, w: seq<byte>, n: nat, f: Frame)
    requires Valid(a) && a.mode == Hunt && !Fresh(IdOf(n), a.rxLastId) && f.typ < RESULT && f.typ != ACK_TO_C64
    requires ChatText.FitsLine(f) && Carries(w, WithID(IdOf(n), f))
    ensures var c := Overlaid(a, [IdOf(n)] + f.payload).(curId := IdOf(n));
            Run(a, Bytes(w)) == Some(if f.typ == TEXT && a.deferredAck then c else c.(ackId := IdOf(n), ackPending := true))
  {
    hide Carries, IdOf, Fresh, Run;
    FrameArrives(a, w, WithID(IdOf(n), f));
  }

  /**
   * The bridge's acknowledgment ends the wait for the frame it names, and for no other; and with an
   * LLM frame acknowledged the next queued message is staged.
   */
  lemma AckArrives(a: State, w: seq<byte>, id: byte)
    requires Valid(a) && a.mode == Hunt && id < 0x80 && AckWire(w, id)
    ensures var r, c := Run(a, Bytes(w)), Overlaid(a, AckToC64Payload(id));
            && r.Some?
            && (id != a.tx.ackId ==> r.value == c)
            && (id == a.tx.ackId ==>
                  var d := c.(tx := a.tx.(wait := false));
                  if LlmInBuffer(a) && a.queue != [] then
                    Waits(r.value, a.queue[0])
                    && r.value == d.(busy := true, queue := a.queue[1..], buf := Staging(c.buf, a.queue[0]), llmPending := true,
                                     llmLen := |a.queue[0]|, llmEvent := EVENT_USER, stagings := a.stagings + 1)
                  else r.value == d)
  {
    hide Run, GuardedAck, AckToC64Payload, Carries, Arrived, Load, LlmInBuffer;
    var f := Frame(ACK_TO_C64, AckToC64Payload(id));
    AckLength(id);
    FrameArrives(a, w, f);
    C64Receiver.GuardSelects(id, a.tx.ackId);
    AckHandled(a, Overlaid(a, f.payload), f);
    var d := Overlaid(a, f.payload).(tx := a.tx.(wait := false));
    if a.queue != [] { LoadWaits(d); }
  }

  lemma AckHandled(a: State, c: State, f: Frame)
    requires Valid(a) && f.typ == ACK_TO_C64 && |f.payload| <= BRIDGE_FRAME_MAX && c == Overlaid(a, f.payload)
    ensures Valid(c.(tx := a.tx.(wait := false)))
    ensures Arrived(c, f) ==
            if !GuardedAck(f.payload, a.tx.ackId) then c
            else
              var d := c.(tx := a.tx.(wait := false));
              if LlmInBuffer(a) && a.queue != [] then Load(d) else d
  {
    hide GuardedAck, Load;
  }

  // ---- what a pass does to the agent ----

  /** A held-back acknowledgment is released: its reply is gone, and nothing is on its way. */
  predicate Released(a: State, lineEmpty: bool) {
    a.deferredAck && !a.textPending && a.tx.Drained() && !a.tx.wait && lineEmpty
  }

  /** A pass over an idle sender builds one frame, the message before the reply, and takes note that it did. */
  lemma IdlePass(a: State, e: Event)
    requires Valid(a) && Enabled(a, e) && e.Service? && a.tx.Drained() && !a.tx.wait && !Released(a, e.lineEmpty)
    ensures var b := Step(a, e);
            && (e.other.Some? ==> b == a.(tx := b.tx) && Outbound.Begun(b.tx, a.tx.nextId, e.other.value))
            && (e.other == None && a.llmPending ==>
                  && b == a.(tx := b.tx, llmPending := false)
                  && Outbound.Begun(b.tx, a.tx.nextId, Frame(LLM, [a.llmEvent] + a.buf[1..1 + a.llmLen])))
            && (e.other == None && !a.llmPending && a.textPending ==>
                  && b == a.(tx := b.tx, textPending := false)
                  && Outbound.Begun(b.tx, a.tx.nextId, Frame(USER, a.text)))
            && (e.other == None && !a.llmPending && !a.textPending ==> b == a)
  {
    hide Outbound.ServicePass, Outbound.Begun, Frames.Body;
    Outbound.IdlePass(a.tx, e.ticked, Next(a, e.other), e.room);
    IdleMayStart(a, e.ticked);
  }

  lemma IdleMayStart(a: State, ticked: bool)
    requires a.tx.Drained() && !a.tx.wait
    ensures MayStart(a, ticked)
  {}

  /** While a frame is being sent or waits, a pass changes the sender only, and the frame in it stays, unless it gives up. */
  lemma BusyPass(a: State, e: Event)
    requires Valid(a) && Enabled(a, e) && e.Service?
    requires !a.tx.Drained() || (a.tx.wait && !Outbound.Decide(a.tx, e.ticked).GiveUp?)
    ensures var b := Step(a, e);
            b == a.(tx := b.tx) && b.tx.cur == a.tx.cur && b.tx.wait == a.tx.wait && b.tx.ackId == a.tx.ackId
  {
    hide Next;
  }

  /** A pass that finds a held-back acknowledgment released makes it due; with messages queued it stages the oldest and builds nothing. */
  lemma ReleasingPass(a: State, e: Event)
    requires Valid(a) && Enabled(a, e) && e.Service? && Released(a, e.lineEmpty)
    ensures var b, c := Step(a, e), a.(deferredAck := false, ackPending := true);
            && (a.queue == [] ==> Enabled(c, e) && b == Step(c, e))
            && (a.queue != [] ==>
                  b == c.(busy := true, queue := a.queue[1..], buf := Staging(a.buf, a.queue[0]), llmPending := true,
                          llmLen := |a.queue[0]|, llmEvent := EVENT_USER, stagings := a.stagings + 1))
  {
    hide Outbound.ServicePass, Pass, MayStart;
    SameNext(a, e.other);
    SameStart(a, e.ticked);
  }

  lemma SameStart(a: State, ticked: bool)
    ensures MayStart(a.(deferredAck := false, ackPending := true), ticked) == MayStart(a, ticked)
  {}

  /** After a long idle time the C64 speaks up by itself: the next free pass builds an LLM frame that says only so. */
  lemma HeartbeatGoesOut(a: State, e: Event)
    requires Valid(a) && Enabled(a, Heartbeat) && e.Service? && e.other == None && !a.deferredAck
    requires Enabled(Step(a, Heartbeat), e)
    ensures var b := Step(Step(a, Heartbeat), e);
            b.busy && !b.llmPending && Outbound.Begun(b.tx, a.tx.nextId, Frame(LLM, [EVENT_HEARTBEAT]))
  {
    hide Outbound.Begun, Step;
    var b := Step(a, Heartbeat);
    Spoken(a);
    IdlePass(b, e);
    assert [EVENT_HEARTBEAT] + b.buf[1..1 + b.llmLen] == [EVENT_HEARTBEAT];
  }

  lemma Spoken(a: State)
    requires Valid(a) && Enabled(a, Heartbeat)
    ensures Step(a, Heartbeat) == a.(llmPending := true, llmLen := 0, llmEvent := EVENT_HEARTBEAT, busy := true, stagings := a.stagings + 1)
    ensures a.tx.Drained() && !a.tx.wait
  {}

  // ---- spans of a run ----

  /** The agent after the first i events. */
  function At(events: seq<Event>, i: nat): (a: State)
    requires Run(PowerOn(), events).Some? && i <= |events|
    ensures Valid(a) && Run(PowerOn(), events[..i]) == Some(a)
  {
    RunSoFar(PowerOn(), events, i);
    Run(PowerOn(), events[..i]).value
  }

  function Span(events: seq<Event>, i: nat, j: nat): (s: seq<Event>)
    requires Run(PowerOn(), events).Some? && i <= j <= |events|
    ensures s == events[i..j] && Run(At(events, i), s) == Some(At(events, j))
  {
    RunBetween(events, i, j);
    events[i..j]
  }

  lemma RunBetween(events: seq<Event>, i: nat, j: nat)
    requires Run(PowerOn(), events).Some? && i <= j <= |events|
    ensures Run(At(events, i), events[i..j]) == Some(At(events, j))
  {
    hide Run, PowerOn;
    RunSplit(PowerOn(), events, i, j);
  }

  function Before(events: seq<Event>, j: nat): (s: seq<Event>)
    requires Run(PowerOn(), events).Some? && j <= |events|
    ensures s == events[..j] && Run(PowerOn(), s).Some?
  {
    RunSoFar(PowerOn(), events, j);
    events[..j]
  }

  lemma {:induction false} BuiltGrows(events: seq<Event>, j: nat)
    requires Run(PowerOn(), events).Some? && j <= |events|
    ensures Built(Before(events, j)) <= Built(events)
    decreases |events|
  {
    hide Step, Enabled, Builds;
    if j == |events| {
      assert events[..j] == events;
    } else {
      var init := events[..|events| - 1];
      BuiltGrows(init, j);
      assert init[..j] == events[..j];
    }
  }

  /** The frame built at event j stands in the agent's list at its place. */
  lemma BuiltAt(events: seq<Event>, j: nat)
    requires Run(PowerOn(), events).Some? && j < |events| && Enabled(At(events, j), events[j])
    requires Builds(At(events, j), events[j]).Some?
    ensures var k := |Built(Before(events, j))|;
            k < |Built(events)| && Built(events)[k] == Builds(At(events, j), events[j]).value
  {
    hide Run, Step, Enabled, Builds, Built;
    BuiltNext(Before(events, j + 1));
    assert Before(events, j + 1)[..j] == Before(events, j);
    BuiltGrows(events, j + 1);
    LastOfPrefix(Built(Before(events, j)), Builds(At(events, j), events[j]).value, Built(events));
  }

  lemma LastOfPrefix(a: seq<Frame>, f: Frame, all: seq<Frame>)
    requires a + [f] <= all
    ensures |a| < |all| && all[|a|] == f
  {}

  lemma BuiltNext(events: seq<Event>)
    requires Run(PowerOn(), events).Some? && events != []
    ensures var init, e := Before(events, |events| - 1), events[|events| - 1];
            && Run(PowerOn(), init).Some? && Enabled(Run(PowerOn(), init).value, e)
            && var f := Builds(Run(PowerOn(), init).value, e);
            Built(events) == Built(init) + if f.Some? then [f.value] else []
  {
    hide Step, Enabled, Builds;
  }

  /** What the bridge takes from everything a run puts on the line. */
  function Taken(events: seq<Event>): seq<Frame>
    requires Run(PowerOn(), events).Some?
  {
    Inbox.FreshFrames(GoCodec.DecodeAll(Outputs(events)))
  }

  /** The frame number k was built, and sent in full at least once. */
  predicate SentInFull(events: seq<Event>, k: nat)
    requires Run(PowerOn(), events).Some?
  {
    k + 1 < |Built(events)| || (k + 1 == |Built(events)| && EndToEnd.NewestSent(L.Run(Shares(events)).log))
  }

  /** A frame built at event j and sent in full is taken by the bridge, modulo bit 7, at its place. */
  lemma BuiltIsTaken(events: seq<Event>, j: nat)
    requires Run(PowerOn(), events).Some? && L.Tidy(Shares(events)) && j < |events|
    requires Enabled(At(events, j), events[j]) && Builds(At(events, j), events[j]).Some?
    requires SentInFull(events, |Built(Before(events, j))|)
    ensures var k := |Built(Before(events, j))|;
            k < |Taken(events)| && Taken(events)[k] == Dulled(Builds(At(events, j), events[j]).value)
  {
    hide Run, Step, Enabled, Builds, L.Run, L.LineInv, L.Tidy, Built, Shares, Outputs, Inbox.FreshFrames, GoCodec.DecodeAll;
    BuiltAt(events, j);
    AgentIsTaken(events);
  }

  /**
   * A message waits after event i and the next LLM frame is built at event j: the bridge takes
   * that message exactly if no queued message was loaded over it and no other staged in between,
   * and no received byte was left in its place that differs.
   */
  lemma MessageReachesBridge(events: seq<Event>, i: nat, j: nat, msg: seq<byte>)
    requires Run(PowerOn(), events).Some? && L.Tidy(Shares(events)) && i <= j < |events|
    requires Waits(At(events, i), msg) && SevenBit(msg)
    requires NoneBuilt(At(events, i), Span(events, i, j), LLM)
    requires Enabled(At(events, j), events[j]) && BuildsType(At(events, j), events[j], LLM)
    requires SentInFull(events, |Built(Before(events, j))|)
    ensures var a, b, k := At(events, i), At(events, j), |Built(Before(events, j))|;
            && k < |Taken(events)|
            && (b.stagings == a.stagings && Taken(events)[k] == Frame(LLM, [EVENT_USER] + msg)
                <==> Undisturbed(a, Span(events, i, j)) && Spares(Stores(a.mode, Received(Span(events, i, j))), msg))
  {
    hide Run, Step, Enabled, NoneBuilt, Undisturbed, Stores, Spares, Feed, BufferAfter, Shares, Built, L.Run, L.Tidy, L.LineInv;
    hide Taken, SentInFull, Builds;
    var a, b, s := At(events, i), At(events, j), Span(events, i, j);
    BuiltIsTaken(events, j);
    MessageGoesOutExactly(a, s, events[j], msg);
    WaitRun(a, s);
    if Undisturbed(a, s) {
      StaysSevenBit(a.mode, a.buf, Received(s), msg);
      BuiltLlm(b, events[j]);
      AllSevenBit(EVENT_USER, b.buf[1..1 + b.llmLen]);
    }
  }

  /** The same where what is received in between is a stream of frames: then it is the frames that spare the message. */
  lemma FramesSpareTheMessage(events: seq<Event>, i: nat, j: nat, msg: seq<byte>, segs: seq<Segment>)
    requires Run(PowerOn(), events).Some? && L.Tidy(Shares(events)) && i <= j < |events|
    requires Waits(At(events, i), msg) && SevenBit(msg)
    requires NoneBuilt(At(events, i), Span(events, i, j), LLM)
    requires Enabled(At(events, j), events[j]) && BuildsType(At(events, j), events[j], LLM)
    requires SentInFull(events, |Built(Before(events, j))|)
    requires At(events, i).mode == Hunt && C64Stream(segs) && Received(Span(events, i, j)) == Flat(segs)
    ensures var a, b, k := At(events, i), At(events, j), |Built(Before(events, j))|;
            && k < |Taken(events)|
            && (b.stagings == a.stagings && Taken(events)[k] == Frame(LLM, [EVENT_USER] + msg)
                <==> Undisturbed(a, Span(events, i, j)) && SparedBy(segs, msg))
  {
    hide Run, Step, Enabled, NoneBuilt, Undisturbed, Stores, Spares, SparedBy, Shares, Built, L.Run, L.Tidy, L.LineInv, C64Stream;
    hide Taken, SentInFull, Builds, Received, BufferAfter;
    MessageReachesBridge(events, i, j, msg);
    SurvivesFramesExactly(At(events, i).buf, segs, msg);
  }

  lemma BuiltLlm(b: State, e: Event)
    requires Valid(b) && Enabled(b, e) && BuildsType(b, e, LLM)
    ensures Builds(b, e) == Some(LlmFrame(b))
  {}

  lemma AllSevenBit(event: byte, m: seq<byte>)
    requires event < 0x80 && SevenBit(m)
    ensures Dulled(Frame(LLM, [event] + m)) == Frame(LLM, [event] + m)
  {
    MaskedSevenBit([event] + m);
  }

  // ---- the three paths ----

  /** A chat message typed while no conversation is under way. */
  lemma ChatDirect(events: seq<Event>, h: nat, j: nat, w: seq<byte>, n: nat, text: seq<ChatText.Rune>)
    requires Run(PowerOn(), events).Some? && L.Tidy(Shares(events)) && h + |w| <= j < |events|
    requires Span(events, h, h + |w|) == Bytes(w) && Carries(w, WithID(IdOf(n), ChatText.MsgFrame(text)))
    requires At(events, h).mode == Hunt && Fresh(IdOf(n), At(events, h).rxLastId) && !At(events, h).busy
    requires NoneBuilt(At(events, h + |w|), Span(events, h + |w|, j), LLM)
    requires Enabled(At(events, j), events[j]) && BuildsType(At(events, j), events[j], LLM)
    requires SentInFull(events, |Built(Before(events, j))|)
    ensures var a, b, msg := At(events, h + |w|), At(events, j), ChatText.MsgFrame(text).payload;
            var k, s := |Built(Before(events, j))|, Span(events, h + |w|, j);
            && k < |Taken(events)|
            && (b.stagings == a.stagings && Taken(events)[k] == Frame(LLM, [EVENT_USER] + msg)
                <==> Undisturbed(a, s) && Spares(Stores(Hunt, Received(s)), msg))
  {
    hide Run, Step, Enabled, NoneBuilt, Undisturbed, Stores, Spares, Shares, Built, L.Run, L.Tidy, L.LineInv, Carries;
    hide Taken, SentInFull, Builds, IdOf, Fresh, ChatText.Ascii;
    MessageArrives(At(events, h), w, n, text);
    MessageReachesBridge(events, h + |w|, j, ChatText.MsgFrame(text).payload);
  }

  /** A chat message that had to wait in the queue, from the event that loads it. */
  lemma ChatQueued(events: seq<Event>, h: nat, j: nat)
    requires Run(PowerOn(), events).Some? && L.Tidy(Shares(events)) && h < j < |events|
    requires Loads(At(events, h), events[h]) && SevenBit(At(events, h).queue[0])
    requires NoneBuilt(At(events, h + 1), Span(events, h + 1, j), LLM)
    requires Enabled(At(events, j), events[j]) && BuildsType(At(events, j), events[j], LLM)
    requires SentInFull(events, |Built(Before(events, j))|)
    ensures var a, b, msg := At(events, h + 1), At(events, j), At(events, h).queue[0];
            var k, s := |Built(Before(events, j))|, Span(events, h + 1, j);
            && a.queue == At(events, h).queue[1..] && k < |Taken(events)|
            && (b.stagings == a.stagings && Taken(events)[k] == Frame(LLM, [EVENT_USER] + msg)
                <==> Undisturbed(a, s) && Spares(Stores(a.mode, Received(s)), msg))
  {
    hide Run, Step, Enabled, NoneBuilt, Undisturbed, Stores, Spares, Shares, Built, L.Run, L.Tidy, L.LineInv;
    hide Taken, SentInFull, Builds, Accepts, Completes, Releases, LlmInBuffer, GuardedAck;
    StepAt(events, h);
    LoadStages(At(events, h), events[h]);
    MessageReachesBridge(events, h + 1, j, At(events, h).queue[0]);
  }

  lemma StepAt(events: seq<Event>, h: nat)
    requires Run(PowerOn(), events).Some? && h < |events|
    ensures Enabled(At(events, h), events[h]) && At(events, h + 1) == Step(At(events, h), events[h])
  {
    hide Step, Enabled;
    RunSoFar(PowerOn(), events, h + 1);
    assert events[..h + 1][..h] == events[..h];
  }

  /**
   * A reply chunk of the bridge, accepted, and the pass at which its turn comes: the bridge takes
   * it back as a USER frame exactly if no DONE and no other TEXT or EXEC was accepted in between.
   */
  lemma TextToUser(events: seq<Event>, h: nat, j: nat, w: seq<byte>, n: nat, f: Frame)
    requires Run(PowerOn(), events).Some? && L.Tidy(Shares(events)) && h + |w| <= j < |events|
    requires f.typ == TEXT && ChatText.FitsLine(f)
    requires Span(events, h, h + |w|) == Bytes(w) && Carries(w, WithID(IdOf(n), f))
    requires At(events, h).mode == Hunt && Fresh(IdOf(n), At(events, h).rxLastId) && !Refuses(At(events, h))
    requires NoneBuilt(At(events, h + |w|), Span(events, h + |w|, j), USER)
    requires Enabled(At(events, j), events[j]) && TextTurn(At(events, j), events[j])
    requires SentInFull(events, |Built(Before(events, j))|)
    ensures var a, b, k := At(events, h + |w|), At(events, j), |Built(Before(events, j))|;
            && (b.texts == a.texts && Builds(b, events[j]) == Some(Frame(USER, f.payload))
                <==> Settled(a, Span(events, h + |w|, j)))
            && (Settled(a, Span(events, h + |w|, j)) ==> k < |Taken(events)| && Taken(events)[k] == Frame(USER, f.payload))
  {
    hide Run, Step, Enabled, NoneBuilt, Settled, Shares, Built, L.Run, L.Tidy, L.LineInv, Carries;
    hide Taken, SentInFull, Builds, IdOf, Fresh, TextTurn;
    TextArrives(At(events, h), w, n, f);
    TextGoesOutExactly(At(events, h + |w|), Span(events, h + |w|, j), events[j], f.payload);
    if Settled(At(events, h + |w|), Span(events, h + |w|, j)) {
      BuiltIsTaken(events, j);
      MaskedSevenBit(f.payload);
    }
  }

  // ---- failing inputs ----

  /** A DONE that carries nothing but its id stores nothing in the message's place, yet the queue's head is loaded over it. */
  lemma DoneReplacesTheMessage(a: State, msg: seq<byte>, w: seq<byte>, n: nat)
    requires Valid(a) && a.mode == Hunt && Fresh(IdOf(n), a.rxLastId) && a.queue != [] && Waits(a, msg)
    requires Carries(w, WithID(IdOf(n), Frame(DONE, [])))
    ensures var r := Run(a, Bytes(w));
            && r.Some? && Waits(r.value, a.queue[0])
            && Spares(Stores(Hunt, w), msg) && !Undisturbed(a, Bytes(w))
  {
    hide Carries, IdOf, Fresh, Run, Feed, Spares, Stores, BufferAfter, Load, Undisturbed;
    var g := WithID(IdOf(n), Frame(DONE, []));
    FrameArrives(a, w, g);
    IdOnlyFramesSpare(a.buf, msg, w, g);
    SurvivesExactly(Hunt, a.buf, w, msg);
    LoadWaits(Entered(Overlaid(a, g.payload), g).(busy := false, textPending := false, ackId := IdOf(n), ackPending := true));
    assert Run(a, Bytes(w)).value.stagings == a.stagings + 1;
    BytesBuildNothing(a, w);
    Restaged(a, Bytes(w));
  }

  /** Where no LLM frame can be built, a staging is what disturbs. */
  lemma Restaged(a: State, events: seq<Event>)
    requires Valid(a) && a.llmPending && Run(a, events).Some? && Run(a, events).value.stagings != a.stagings
    requires NoneBuilt(a, events, LLM)
    ensures !Undisturbed(a, events)
  {
    hide Run, Undisturbed, NoneBuilt, Feed, BufferAfter;
    WaitRun(a, events);
  }

  lemma {:induction false} BytesBuildNothing(a: State, w: seq<byte>)
    requires Valid(a) && Run(a, Bytes(w)).Some?
    ensures NoneBuilt(a, Bytes(w), LLM)
  {
    hide Step;
    if w != [] {
      assert Bytes(w)[..|w| - 1] == Bytes(w[..|w| - 1]);
      BytesBuildNothing(a, w[..|w| - 1]);
    }
  }

  /**
   * A conversation with one message queued; a short reply comes in and is passed on; while its
   * USER frame awaits the bridge's acknowledgment the next message is typed.  With nothing more
   * received, the held-back acknowledgment comes due and the queued message is loaded over the new
   * one, which is in the queue no more than it is in the buffer.
   */
  lemma HeldBackAckCostsAMessage(a: State, reply: seq<byte>, text: seq<byte>, n: nat, typed: seq<byte>, msg: seq<ChatText.Rune>)
    returns (before: seq<Event>, release: Event)
    requires Valid(a) && a.mode == Hunt && a.busy && !a.running && !a.waiting && a.queue != []
    requires !a.llmPending && !a.textPending && !a.deferredAck && a.tx.Drained() && !a.tx.wait
    requires Fresh(IdOf(n), a.rxLastId) && 0 < |text| <= 11 && SevenBit(text)
    requires Carries(reply, WithID(IdOf(n), Frame(TEXT, text)))
    requires Carries(typed, WithID(IdOf(n + 1), ChatText.MsgFrame(msg)))
    ensures Received([release]) == [] && Run(a, before).Some?
    ensures var b := Run(a, before).value;
            && Waits(b, ChatText.MsgFrame(msg).payload) && Enabled(b, release)
            && Waits(Step(b, release), a.queue[0]) && Step(b, release).queue == a.queue[1..]
  {
    hide Carries, IdOf, Run, Fresh, ChatText.Ascii, UserQueue.Pushed, Outbound.ServicePass, Arrived, Load;
    var f := Frame(TEXT, text);
    var pass := Event.Service(false, false, None, 16);
    TextArrives(a, reply, n, f);
    var b := Run(a, Bytes(reply)).value;
    ReplyGoesOut(b, pass);
    var c := Step(b, pass);
    NextIsFresh(n);
    MessageArrives(c, typed, n + 1, msg);
    release := Event.Service(false, true, None, 16);
    LoadStages(Run(c, Bytes(typed)).value, release);
    ThreeParts(a, Bytes(reply), pass, Bytes(typed));
    before := Bytes(reply) + [pass] + Bytes(typed);
    assert Received([release]) == [] by { NoByte(release); }
  }

  lemma NoByte(e: Event)
    requires !e.Byte?
    ensures Received([e]) == []
  {
    assert [e][..0] == [];
  }

  lemma NextIsFresh(n: nat)
    ensures Fresh(IdOf(n + 1), IdOf(n))
  {
    hide IdOf;
    WindowDecides(n + 1, n);
  }

  lemma ThreeParts(a: State, x: seq<Event>, e: Event, y: seq<Event>)
    requires Valid(a) && Run(a, x).Some? && Enabled(Run(a, x).value, e)
    ensures Run(a, x + [e] + y) == Run(Step(Run(a, x).value, e), y)
  {
    hide Step, Enabled;
    assert (x + [e])[..|x|] == x;
    RunConcat(a, x + [e], y);
  }

  /** One pass is enough for a short reply on an idle line; its acknowledgment is still held back then. */
  lemma ReplyGoesOut(b: State, pass: Event)
    requires Valid(b) && b.mode == Hunt && pass == Event.Service(false, false, None, 16)
    requires b.textPending && |b.text| <= 11 && !b.llmPending && b.tx.Drained() && !b.tx.wait
    ensures Enabled(b, pass)
    ensures var c := Step(b, pass);
            && c == b.(textPending := false, tx := c.tx) && c.tx.Drained() && c.tx.wait
  {
    var f := Frame(USER, b.text);
    var t := Outbound.Built(b.tx, f);
    assert |t.cur| == |b.text| + 5;
  }
}
