/**
 * The C64 agent as far as chat text goes: parser, gate, handlers, message queue and sender, all over
 * one receive buffer.  A chat message waits in that buffer until its LLM frame is built, and a reply
 * chunk in the command buffer until its USER frame is; other events can get at both.
 */
module Agent {
  import opened Wire
  import opened Frames
  import opened TransportIds
  import opened C64Parser
  import opened C64Receiver
  import opened Outbound
  import UserQueue

  const EVENT_USER: byte := 1
  const EVENT_HEARTBEAT: byte := 2

  datatype State = State(
    mode: Mode, buf: seq<byte>,             // the parser and the receive buffer
    rxLastId: byte, curId: byte, ackId: byte, ackPending: bool, deferredAck: bool,
    tx: Tx,                                 // the sender
    queue: seq<UserQueue.Message>,
    llmPending: bool, llmLen: nat, llmEvent: byte,
    textPending: bool, text: seq<byte>,     // the command buffer, as far as its length says
    busy: bool,                             // a conversation is under way
    running: bool, waiting: bool,           // a BASIC program runs; a command waits for READY.
    stagings: nat, texts: nat)              // how often a message was staged, and the command buffer filled

  datatype Event =
    | Byte(raw: byte)
    | Service(ticked: bool, lineEmpty: bool, other: Option<Frame>, room: nat)
    | AckOut
    | Heartbeat
    | BusyEnds
    | Running(on: bool)
    | Waiting(on: bool)

  predicate Valid(a: State) {
    && a.mode.Valid() && |a.buf| == RXBUF_LEN
    && a.tx.pos <= |a.tx.cur|
    && a.llmLen <= MESSAGE_MAX && |a.text| <= MESSAGE_MAX
    && |a.queue| <= UserQueue.SLOTS
    && forall i :: 0 <= i < |a.queue| ==> |a.queue[i]| <= MESSAGE_MAX
  }

  /** What is left of a bridge frame's payload behind the id. */
  const MESSAGE_MAX: nat := BRIDGE_FRAME_MAX - 1

  // ---- frames that arrive ----

  function Regs(a: State): Registers {
    Registers(a.rxLastId, a.ackId, a.ackPending, a.deferredAck, a.tx.ackId, a.tx.wait)
  }

  /** TEXT is refused while a command waits and no program runs. */
  predicate Refuses(a: State) {
    a.waiting && !a.running
  }

  function Gated(a: State, f: Frame): Passed {
    Gate(Regs(a), f, Refuses(a), a.tx.Drained())
  }

  /** The registers after the gate. */
  function Entered(a: State, f: Frame): State {
    var r := Gated(a, f).regs;
    a.(rxLastId := r.rxLastId, ackId := r.ackId, ackPending := r.ackPending, deferredAck := r.deferredAck,
       tx := a.tx.(wait := r.txAckWait),
       curId := if f.typ != ACK_TO_C64 && f.typ < RESULT && f.payload != [] then f.payload[0] else a.curId)
  }

  predicate LlmInBuffer(a: State) {
    |a.tx.cur| > 1 && a.tx.cur[1] == LLM
  }

  /** The head of the queue is copied over the message's place in the receive buffer. */
  function Load(a: State): (b: State)
    requires Valid(a) && a.queue != []
    ensures Valid(b)
  {
    var m := a.queue[0];
    a.(queue := a.queue[1..], buf := a.buf[..1] + m + a.buf[1 + |m|..],
       llmPending := true, llmLen := |m|, llmEvent := EVENT_USER, busy := true, stagings := a.stagings + 1)
  }

  /** A frame that passed the checksum: the gate, and the handlers that touch messages and texts. */
  function Arrived(a: State, f: Frame): (b: State)
    requires Valid(a) && |f.payload| <= BRIDGE_FRAME_MAX
    ensures Valid(b)
  {
    var b, command := Entered(a, f), Gated(a, f).command;
    if f.typ == ACK_TO_C64 then
      if GuardedAck(f.payload, a.tx.ackId) && LlmInBuffer(a) && a.queue != [] then Load(b) else b
    else if command == None then b
    else
      var body := command.value.payload;
      match f.typ
      case 0x4D => HandleMsg(b, body)
      case 0x44 => HandleDone(b)
      case 0x54 => HandleText(b, body)
      case 0x45 => HandleExec(b, body)
      case _ => b
  }

  function HandleMsg(a: State, body: seq<byte>): (b: State)
    requires Valid(a) && |body| <= MESSAGE_MAX
    ensures Valid(b)
  {
    if a.busy then a.(queue := UserQueue.Pushed(a.queue, body))
    else a.(llmLen := |body|, llmEvent := EVENT_USER, busy := true, llmPending := true, stagings := a.stagings + 1)
  }

  function HandleDone(a: State): (b: State)
    requires Valid(a)
    ensures Valid(b)
  {
    var c := a.(busy := false, textPending := false, ackId := a.curId, ackPending := true);
    if c.queue != [] then Load(c) else c
  }

  function HandleText(a: State, body: seq<byte>): (b: State)
    requires Valid(a) && |body| <= MESSAGE_MAX
    ensures Valid(b)
  {
    if Refuses(a) then a else
    a.(tx := Released(a.tx, LlmInBuffer(a)), busy := a.busy && a.running,
       text := body, textPending := true, ackId := a.curId, deferredAck := true, texts := a.texts + 1)
  }

  function HandleExec(a: State, body: seq<byte>): (b: State)
    requires Valid(a) && |body| <= MESSAGE_MAX
    ensures Valid(b)
  {
    var c := a.(ackId := a.curId, ackPending := true);
    if a.running || a.waiting then c else c.(text := body, texts := a.texts + 1)
  }

  /** The agent after the parser alone has seen a byte. */
  function Parsed(a: State, raw: byte): (b: State)
    requires Valid(a)
    ensures Valid(b)
  {
    a.(mode := React(a.mode, raw).mode, buf := Stored(a.mode, a.buf, raw))
  }

  /** A byte from the line. */
  function Heard(a: State, raw: byte): (b: State)
    requires Valid(a)
    ensures Valid(b)
  {
    var b := Parsed(a, raw);
    var f := React(a.mode, raw).dispatched;
    if f.Some? then Arrived(b, f.value) else b
  }

  // ---- the sender ----

  /** The deferred TEXT acknowledgment becomes due once the reply has gone out and the line is empty. */
  predicate Releases(a: State, lineEmpty: bool) {
    a.tx.Drained() && a.deferredAck && !a.textPending && !a.tx.wait && lineEmpty
  }

  predicate LoadsDeferred(a: State, lineEmpty: bool) {
    Releases(a, lineEmpty) && a.queue != []
  }

  function LlmFrame(a: State): Frame
    requires Valid(a)
  {
    Frame(LLM, [a.llmEvent] + a.buf[1..1 + a.llmLen])
  }

  /** What a pass would build: a pending STATUS, SYSTEM or RESULT first, then the message, then the text. */
  function Next(a: State, other: Option<Frame>): (f: Option<Frame>)
    requires Valid(a) && Proper(other)
    ensures f.Some? ==> Buildable(f.value)
  {
    if other.Some? then other
    else if a.llmPending then Some(LlmFrame(a))
    else if a.textPending then Some(Frame(USER, a.text))
    else None
  }

  predicate Proper(other: Option<Frame>) {
    other.Some? ==> Buildable(other.value) && other.value.typ in {STATUS, SYSTEM, RESULT}
  }

  predicate MayStart(a: State, ticked: bool) {
    var d := Decided(a.tx, Decide(a.tx, ticked));
    d.Drained() && !d.wait
  }

  function Pass(a: State, ticked: bool, other: Option<Frame>, room: nat): (b: State)
    requires Valid(a) && Proper(other)
    ensures Valid(b)
  {
    hide ServicePass, Next, MayStart;
    var own := MayStart(a, ticked) && other == None;
    a.(tx := ServicePass(a.tx, ticked, Next(a, other), room).tx,
       llmPending := a.llmPending && !own,
       textPending := a.textPending && !(own && !a.llmPending))
  }

  function Serviced(a: State, ticked: bool, lineEmpty: bool, other: Option<Frame>, room: nat): (b: State)
    requires Valid(a) && Proper(other)
    ensures Valid(b)
  {
    if Releases(a, lineEmpty) then
      var b := a.(deferredAck := false, ackPending := true);
      if b.queue != [] then Load(b) else Pass(b, ticked, other, room)
    else Pass(a, ticked, other, room)
  }

  /** A pass builds and loads between received frames only: builders and parser share two registers and a buffer. */
  predicate Enabled(a: State, e: Event)
    requires Valid(a)
  {
    match e
    case Service(ticked, lineEmpty, other, _) =>
      Proper(other) && (a.mode.Hunt? || (!LoadsDeferred(a, lineEmpty) && !(MayStart(a, ticked) && Next(a, other).Some?)))
    case AckOut => a.ackPending
    case Heartbeat => !a.busy && !a.llmPending && !a.textPending && !a.ackPending && !a.tx.wait && a.tx.Drained()
    case _ => true
  }

  function Step(a: State, e: Event): (b: State)
    requires Valid(a) && Enabled(a, e)
    ensures Valid(b)
  {
    match e
    case Byte(raw) => Heard(a, raw)
    case Service(ticked, lineEmpty, other, room) => Serviced(a, ticked, lineEmpty, other, room)
    case AckOut => a.(ackPending := false)
    case Heartbeat => a.(llmPending := true, llmLen := 0, llmEvent := EVENT_HEARTBEAT, busy := true, stagings := a.stagings + 1)
    case BusyEnds => a.(busy := false)
    case Running(on) => a.(running := on)
    case Waiting(on) => a.(waiting := on)
  }
}
