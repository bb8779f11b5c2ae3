/** What an acknowledgment of a TEXT frame says about the text, and which repeated frames are acknowledged. */
module TextAdmission {
  import opened Wire
  import opened Frames
  import opened TransportIds
  import opened C64Receiver

  /** What happens at the C64 around one frame of the bridge, the frame number t. */
  datatype Event =
    | Copy(busy: bool, drained: bool)                        // a copy of it arrives
    | Other(n: nat, f: Frame, busy: bool, drained: bool)     // the frame number n arrives, under its id
    | Outside(f: Frame, busy: bool, drained: bool)           // an acknowledgment, or a frame without an id
    | ReleaseDeferred                                        // the held-back acknowledgment becomes due
    | EmitAck                                                // the acknowledgment that is due goes out

  /** The registers, the newest number accepted, whether the frame was taken over, and whether its id was acknowledged. */
  datatype Watch = Watch(regs: Registers, newest: nat, taken: bool, acked: bool)

  predicate FromBridge(f: Frame) {
    f.typ < RESULT && f.typ != ACK_TO_C64
  }

  /** The handler refuses a TEXT that is handed to it while a command waits. */
  function Step(t: nat, f: Frame, w: Watch, e: Event): Watch {
    var r := w.regs;
    match e
    case Copy(busy, drained) =>
      var g := Gate(r, WithID(IdOf(t), f), busy, drained);
      Watch(g.regs, if Fresh(IdOf(t), r.rxLastId) then t else w.newest,
            w.taken || (g.command.Some? && !(f.typ == TEXT && busy)), w.acked)
    case Other(n, o, busy, drained) =>
      w.(regs := Gate(r, WithID(IdOf(n), o), busy, drained).regs,
         newest := if Fresh(IdOf(n), r.rxLastId) then n else w.newest)
    case Outside(o, busy, drained) => w.(regs := Gate(r, o, busy, drained).regs)
    case ReleaseDeferred => if r.deferredAck then w.(regs := r.(deferredAck := false, ackPending := true)) else w
    case EmitAck =>
      if r.ackPending then w.(regs := r.(ackPending := false), acked := w.acked || r.ackId == IdOf(t)) else w
  }

  /**
   * What arrives is never more than 63 numbers from the newest accepted, and the ids do not come
   * round to that of frame t.
   */
  predicate Possible(t: nat, w: Watch, e: Event) {
    match e
    case Copy(_, _) => t - 63 <= w.newest <= t + 63
    case Other(n, o, _, _) => FromBridge(o) && n != t && t - 127 < n < t + 127 && n - 63 <= w.newest <= n + 63
    case Outside(o, _, _) => !FromBridge(o) || o.payload == []
    case _ => true
  }

  function Run(t: nat, f: Frame, w: Watch, events: seq<Event>): Option<Watch> {
    if events == [] then Some(w) else
    match Run(t, f, w, events[..|events| - 1])
    case None => None
    case Some(v) =>
      var e := events[|events| - 1];
      if Possible(t, v, e) then Some(Step(t, f, v, e)) else None
  }

  /** The number is new, and no acknowledgment of its id is due or held back from an earlier round. */
  predicate New(t: nat, w: Watch) {
    && (w.regs.rxLastId == 0 || (w.regs.rxLastId == IdOf(w.newest) && w.newest < t <= w.newest + 63))
    && !((w.regs.ackPending || w.regs.deferredAck) && w.regs.ackId == IdOf(t))
    && !w.taken && !w.acked
  }

  /** After its first copy has been accepted. */
  function Accepted(t: nat, f: Frame, w: Watch, busy: bool, drained: bool): Watch {
    Step(t, f, w, Copy(busy, drained))
  }

  /** In whatever happens next, an acknowledgment of the frame goes out only once the frame was taken. */
  ghost predicate AckMeansTaken(t: nat, f: Frame, w: Watch, busy: bool, drained: bool) {
    forall events: seq<Event> ::
      var v := Run(t, f, Accepted(t, f, w, busy, drained), events);
      v.Some? && v.value.acked ==> v.value.taken
  }

  /** The newest number accepted is that of the frame or a later one. */
  predicate Past(t: nat, w: Watch) {
    w.regs.rxLastId == IdOf(w.newest) && w.newest >= t
  }

  lemma FirstCopy(t: nat, f: Frame, w: Watch, busy: bool, drained: bool)
    requires FromBridge(f) && New(t, w)
    ensures var v := Accepted(t, f, w, busy, drained);
            && Past(t, v) && v.newest == t && !v.acked && (v.taken <==> !(f.typ == TEXT && busy))
  {
    hide IdOf, C64Ahead;
    if w.regs.rxLastId != 0 {
      WindowDecides(t, w.newest);
    }
  }

  /** Every later copy is recognized by its id, and so is every other frame that is not newer. */
  lemma PastStays(t: nat, f: Frame, w: Watch, e: Event)
    requires FromBridge(f) && Past(t, w) && Possible(t, w, e)
    ensures var v := Step(t, f, w, e); Past(t, v) && v.taken == w.taken && v.newest >= w.newest
  {
    hide IdOf, C64Ahead, GuardedAck;
    match e
    case Copy(_, _) => WindowDecides(t, w.newest);
    case Other(n, _, _, _) => WindowDecides(n, w.newest);
    case _ =>
  }

  /** Whether the frame is taken is settled by its first accepted copy. */
  lemma {:induction false} TakenExactly(t: nat, f: Frame, w: Watch, busy: bool, drained: bool, events: seq<Event>)
    requires FromBridge(f) && New(t, w)
    requires Run(t, f, Accepted(t, f, w, busy, drained), events).Some?
    ensures var v := Run(t, f, Accepted(t, f, w, busy, drained), events).value;
            (v.taken <==> !(f.typ == TEXT && busy)) && Past(t, v)
  {
    hide Step, Past, Possible, Accepted;
    if events == [] {
      FirstCopy(t, f, w, busy, drained);
    } else {
      var init, e := events[..|events| - 1], events[|events| - 1];
      TakenExactly(t, f, w, busy, drained, init);
      PastStays(t, f, Run(t, f, Accepted(t, f, w, busy, drained), init).value, e);
    }
  }

  /**
   * An acknowledgment means the frame was taken exactly unless it is a TEXT and a command was
   * waiting when its first copy was accepted.
   */
  lemma AckMeansTakenExactly(t: nat, f: Frame, w: Watch, busy: bool, drained: bool)
    requires FromBridge(f) && New(t, w)
    ensures AckMeansTaken(t, f, w, busy, drained) <==> !(f.typ == TEXT && busy)
  {
    hide Run, Accepted, New;
    if f.typ == TEXT && busy {
      var events := RetryIsAcked(t, f, w, drained);
      TakenExactly(t, f, w, busy, drained, events);
    } else {
      forall events: seq<Event> | Run(t, f, Accepted(t, f, w, busy, drained), events).Some?
        ensures Run(t, f, Accepted(t, f, w, busy, drained), events).value.taken
      {
        TakenExactly(t, f, w, busy, drained, events);
      }
    }
  }

  /** A refused text, one more copy of it once nothing is held back, and the acknowledgment goes out. */
  lemma RetryIsAcked(t: nat, f: Frame, w: Watch, drained: bool) returns (events: seq<Event>)
    requires f.typ == TEXT && New(t, w)
    ensures Run(t, f, Accepted(t, f, w, true, drained), events).Some?
    ensures Run(t, f, Accepted(t, f, w, true, drained), events).value.acked
  {
    hide Run, IdOf, C64Ahead, GuardedAck;
    var v := Accepted(t, f, w, true, drained);
    FirstCopy(t, f, w, true, drained);
    NothingYet(t, f, v);
    WindowDecides(t, t);
    events := Then(t, f, v, [], ReleaseDeferred);
    events := Then(t, f, v, events, Copy(false, true));
    events := Then(t, f, v, events, EmitAck);
  }

  lemma NothingYet(t: nat, f: Frame, w: Watch)
    ensures Run(t, f, w, []) == Some(w)
  {}

  lemma Then(t: nat, f: Frame, w: Watch, events: seq<Event>, e: Event) returns (more: seq<Event>)
    requires Run(t, f, w, events).Some? && Possible(t, Run(t, f, w, events).value, e)
    ensures more == events + [e]
    ensures Run(t, f, w, more) == Some(Step(t, f, Run(t, f, w, events).value, e))
  {
    hide Step, Possible;
    more := events + [e];
    assert more[..|events|] == events;
  }

  // ---- which repeated frames are acknowledged ----

  /** The frame's acknowledgment would go out next. */
  predicate Due(t: nat, w: Watch) {
    w.regs.ackPending && w.regs.ackId == IdOf(t)
  }

  /** An arriving frame asks for an acknowledgment of its own, which replaces the one before it. */
  predicate Asks(w: Watch, n: nat, typ: byte, busy: bool) {
    if Fresh(IdOf(n), w.regs.rxLastId) then !(typ == TEXT && busy) else !(typ == TEXT && w.regs.deferredAck)
  }

  /** Nothing goes out, and no frame asks for an acknowledgment. */
  predicate Calm(t: nat, f: Frame, w: Watch, events: seq<Event>)
    requires Run(t, f, w, events).Some?
  {
    events != [] ==>
      var init := events[..|events| - 1];
      Calm(t, f, w, init) && CalmStep(t, f, Run(t, f, w, init).value, events[|events| - 1])
  }

  predicate CalmStep(t: nat, f: Frame, w: Watch, e: Event) {
    match e
    case Copy(busy, _) => !Asks(w, t, f.typ, busy)
    case Other(n, o, busy, _) => !Asks(w, n, o.typ, busy)
    case EmitAck => false
    case _ => true
  }

  predicate Released(events: seq<Event>) {
    exists i :: 0 <= i < |events| && events[i].ReleaseDeferred?
  }

  lemma CalmKeeps(t: nat, f: Frame, w: Watch, e: Event)
    requires FromBridge(f) && Possible(t, w, e) && CalmStep(t, f, w, e)
    ensures var r, s := w.regs, Step(t, f, w, e).regs;
            && s.ackId == r.ackId
            && s.deferredAck == (r.deferredAck && !e.ReleaseDeferred?)
            && s.ackPending == (r.ackPending || (r.deferredAck && e.ReleaseDeferred?))
  {
    hide IdOf, C64Ahead, GuardedAck;
  }

  lemma {:induction false} CalmRun(t: nat, f: Frame, w: Watch, events: seq<Event>)
    requires FromBridge(f) && Run(t, f, w, events).Some? && Calm(t, f, w, events)
    ensures var r, s := w.regs, Run(t, f, w, events).value.regs;
            && s.ackId == r.ackId
            && s.deferredAck == (r.deferredAck && !Released(events))
            && s.ackPending == (r.ackPending || (r.deferredAck && Released(events)))
  {
    hide Step, Possible, CalmStep;
    if events != [] {
      var init, e := events[..|events| - 1], events[|events| - 1];
      CalmRun(t, f, w, init);
      CalmKeeps(t, f, Run(t, f, w, init).value, e);
      assert Released(events) <==> Released(init) || e.ReleaseDeferred? by {
        if Released(init) {
          var i :| 0 <= i < |init| && init[i].ReleaseDeferred?;
          assert events[i].ReleaseDeferred?;
        }
        if e.ReleaseDeferred? {
          assert events[|events| - 1].ReleaseDeferred?;
        }
      }
    }
  }

  /**
   * A repeated frame arrives, and until something goes out no other frame asks for an
   * acknowledgment: what goes out acknowledges it exactly unless it is a TEXT while a TEXT
   * acknowledgment is held back; and even then if that one is its own and has been released.
   */
  lemma StaleIsAcknowledgedExactly(t: nat, f: Frame, w: Watch, busy: bool, drained: bool, events: seq<Event>)
    requires FromBridge(f) && Past(t, w) && Possible(t, w, Copy(busy, drained)) && !Due(t, w)
    requires Run(t, f, Step(t, f, w, Copy(busy, drained)), events).Some?
    requires Calm(t, f, Step(t, f, w, Copy(busy, drained)), events)
    ensures var v := Run(t, f, Step(t, f, w, Copy(busy, drained)), events).value;
            Due(t, v) <==>
            || !(f.typ == TEXT && w.regs.deferredAck)
            || (w.regs.ackId == IdOf(t) && Released(events))
  {
    hide IdOf, C64Ahead, GuardedAck, Run, Calm, Released;
    WindowDecides(t, w.newest);
    CalmRun(t, f, Step(t, f, w, Copy(busy, drained)), events);
  }
}
