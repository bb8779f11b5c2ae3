/** Whole runs of the C64's sender: one frame at a time, and how each one's wait ends. */
module SenderRuns {
  import opened Wire
  import opened Frames
  import opened TransportIds
  import opened TxBuffer
  import opened Outbound

  /** How a wait ended: the event, and the registers just before it. */
  datatype End = End(cause: Event, tx: Tx)

  /**
   * The registers, per frame built so far the frame and how often it was started, and how the waits
   * ended, in order.
   */
  datatype Log = Log(tx: Tx, built: seq<Frame>, copies: seq<nat>, ends: seq<End>)

  const POWER_ON := Log(Tx([], 0, false, 0, 0, 0, 1), [], [], [])

  function Step(l: Log, e: Event): Log
    requires l.tx.pos <= |l.tx.cur| && Admissible(e)
  {
    var m := Progress(l, e);
    if WaitEnds(l, e) then m.(ends := l.ends + [End(e, l.tx)]) else m
  }

  predicate WaitEnds(l: Log, e: Event)
    requires l.tx.pos <= |l.tx.cur| && Admissible(e)
  {
    var m := Progress(l, e);
    l.tx.wait && (!m.tx.wait || |m.built| > |l.built|)
  }

  function Progress(l: Log, e: Event): Log
    requires l.tx.pos <= |l.tx.cur| && Admissible(e)
  {
    match e
    case Service(ticked, ready, room) =>
      var move := Decide(l.tx, ticked);
      var m := l.(tx := ServicePass(l.tx, ticked, ready, room).tx);
      if MayBuild(Decided(l.tx, move), ready) then m.(built := l.built + [ready.value], copies := l.copies + [1])
      else if move.Retry? && l.copies != [] then m.(copies := Bumped(l.copies))
      else m
    case Acked(payload) => l.(tx := Released(l.tx, GuardedAck(payload, l.tx.ackId)))
    case InboundAccepted => l.(tx := Released(l.tx, l.tx.Drained()))
    case TextAccepted => l.(tx := Released(l.tx, |l.tx.cur| > 1 && l.tx.cur[1] == LLM))
  }

  /** The bytes of the frame that a step puts on the line. */
  function Emitted(l: Log, e: Event): seq<byte>
    requires l.tx.pos <= |l.tx.cur| && Admissible(e)
  {
    if e.Service? then ServicePass(l.tx, e.ticked, e.ready, e.room).sent else []
  }

  function Bumped(copies: seq<nat>): seq<nat>
    requires copies != []
  {
    copies[..|copies| - 1] + [copies[|copies| - 1] + 1]
  }

  /** The i-th frame built, as it stands in the buffer: it carries the i-th transport id. */
  function Image(i: nat, f: Frame): seq<byte>
    requires Buildable(f)
  {
    [SYNC] + Body(WithID(IdOf(i), f))
  }

  predicate AllBuildable(built: seq<Frame>) {
    forall i :: 0 <= i < |built| ==> Buildable(built[i])
  }

  /** One frame in the buffer, under its own id; started one to four times. */
  ghost predicate Inv(l: Log) {
    var n := |l.built|;
    && |l.copies| == n && AllBuildable(l.built)
    && l.tx.pos <= |l.tx.cur|
    && l.tx.nextId == IdOf(n)
    && (forall i :: 0 <= i < n ==> 1 <= l.copies[i] <= 4)
    && (n == 0 ==> l.tx.cur == [] && !l.tx.wait)
    && (n > 0 ==>
          && l.tx.cur == Image(n - 1, l.built[n - 1])
          && l.tx.ackId == IdOf(n - 1)
          && l.copies[n - 1] == l.tx.retries + 1)
  }

  /** A wait ended in one of the four ways there are. */
  predicate Proper(end: End, i: nat, f: Frame, copies: nat)
    requires Buildable(f)
  {
    && end.tx.wait && end.tx.cur == Image(i, f) && end.tx.ackId == IdOf(i)
    && match end.cause
       case Acked(payload) => GuardedAck(payload, IdOf(i))
       case InboundAccepted => end.tx.Drained()
       case TextAccepted => f.typ == LLM
       case Service(_, _, _) => end.tx.Drained() && end.tx.retries == MAX_RETRIES && copies == 4
  }

  /** Every frame's wait was started, and every frame's but the newest one's has properly ended. */
  ghost predicate Ended(l: Log) {
    && |l.copies| == |l.built| && AllBuildable(l.built)
    && |l.ends| + (if l.tx.wait then 1 else 0) == |l.built|
    && forall i :: 0 <= i < |l.ends| ==> Proper(l.ends[i], i, l.built[i], l.copies[i])
  }

  lemma InvStep(l: Log, e: Event)
    requires Inv(l) && Ended(l) && Admissible(e)
    ensures Inv(Step(l, e)) && Ended(Step(l, e))
  {
    hide Image;
    ProgressKeeps(l, e);
    EndsOnlySoFar(l, e);
  }

  lemma NewestShape(l: Log)
    requires Inv(l) && l.built != []
    ensures |l.tx.cur| >= 5 && l.tx.cur[1] == l.built[|l.built| - 1].typ
  {
    hide Xor;
  }

  /** Giving up comes after the fourth complete transmission. */
  lemma GivesUpAfterFour(l: Log, ticked: bool)
    requires Inv(l) && l.tx.wait && Decide(l.tx, ticked).GiveUp?
    ensures l.built != [] && l.tx.Drained() && l.tx.retries == MAX_RETRIES && l.copies[|l.copies| - 1] == 4
  {
    hide Image;
    var n := |l.built|;
    assert l.copies[n - 1] == l.tx.retries + 1 <= 4;
  }

  /** What a pass does while a frame waits: nothing is built unless it gives up. */
  lemma WaitingPass(l: Log, e: Event)
    requires Inv(l) && l.tx.wait && e.Service? && Admissible(e)
    ensures var m, move := Progress(l, e), Decide(l.tx, e.ticked);
            !move.GiveUp? ==> m.built == l.built && m.tx.wait
  {
    hide Image, Quota;
    NewestShape(l);
  }

  lemma NewEndIsProper(l: Log, e: Event)
    requires Inv(l) && Admissible(e) && WaitEnds(l, e)
    ensures var n := |l.built|;
            n > 0 && Proper(End(e, l.tx), n - 1, l.built[n - 1], l.copies[n - 1])
  {
    hide Body, IdOf, Image, Quota;
    NewestShape(l);
    if e.Service? {
      WaitingPass(l, e);
      GivesUpAfterFour(l, e.ticked);
    }
  }

  /** A step touches no earlier frame, and the newest one's count only while its wait goes on. */
  lemma EarlierStay(l: Log, e: Event)
    requires Inv(l) && Admissible(e)
    ensures var m := Progress(l, e);
            && |l.built| <= |m.built| <= |l.built| + 1 && |m.copies| == |m.built| && AllBuildable(m.built)
            && (forall i :: 0 <= i < |l.built| ==> m.built[i] == l.built[i])
            && (forall i :: 0 <= i < |l.built| && (i < |l.built| - 1 || !l.tx.wait || WaitEnds(l, e)) ==> m.copies[i] == l.copies[i])
            && m.ends == l.ends && (|m.built| > |l.built| ==> m.tx.wait)
            && (m.tx.wait && |m.built| == |l.built| ==> l.tx.wait)
  {
    hide Body, IdOf, Image, Quota;
    if WaitEnds(l, e) { NewEndIsProper(l, e); }
  }

  lemma EndsOnlySoFar(l: Log, e: Event)
    requires Inv(l) && Ended(l) && Admissible(e)
    ensures Ended(Step(l, e))
  {
    hide Progress, IdOf, Image, Decide;
    EarlierStay(l, e);
    if WaitEnds(l, e) { NewEndIsProper(l, e); }
  }

  /** While one frame waits no other is built, except in the pass that gives it up after four transmissions. */
  lemma BuiltOnlyWhenFree(l: Log, e: Event)
    requires Inv(l) && Ended(l) && Admissible(e)
    requires Step(l, e).built != l.built
    ensures |Step(l, e).ends| == |l.built|
    ensures l.tx.wait ==> l.tx.Drained() && l.copies[|l.copies| - 1] == 4
  {
    hide Body, IdOf, Image, Quota;
    if l.tx.wait {
      WaitingPass(l, e);
      GivesUpAfterFour(l, e.ticked);
    }
  }

  /** Until the next frame is built, the newest one's bytes and id stay as they are. */
  lemma BytesStay(l: Log, e: Event)
    requires l.tx.pos <= |l.tx.cur| && Admissible(e)
    requires |Step(l, e).built| == |l.built|
    ensures Step(l, e).tx.cur == l.tx.cur && Step(l, e).tx.ackId == l.tx.ackId
  {
    hide Body, Quota;
  }

  lemma ProgressKeeps(l: Log, e: Event)
    requires Inv(l) && Admissible(e)
    ensures Inv(Progress(l, e))
  {
    hide Xor, Body, IdOf;
    CountersTrack(|l.built|);
    if e.Service? && Decide(l.tx, e.ticked).Retry? {
      assert l.copies != [];
    }
  }

  predicate AllAdmissible(events: seq<Event>) {
    forall i :: 0 <= i < |events| ==> Admissible(events[i])
  }

  function Run(events: seq<Event>): (l: Log)
    requires AllAdmissible(events)
    ensures Inv(l) && Ended(l)
  {
    if events == [] then POWER_ON else
    var init := Run(events[..|events| - 1]);
    var e := events[|events| - 1];
    InvStep(init, e);
    Step(init, e)
  }

  // ---- every list of frames is built by some run ----

  lemma RunMore(events: seq<Event>, e: Event)
    requires AllAdmissible(events) && Admissible(e)
    ensures AllAdmissible(events + [e]) && Run(events + [e]) == Step(Run(events), e)
  {
    hide Step;
    assert (events + [e])[..|events|] == events;
  }

  /** Passes with room on the line send whatever is left, and build nothing. */
  lemma {:induction false} Drains(events: seq<Event>) returns (more: seq<Event>)
    requires AllAdmissible(events)
    ensures AllAdmissible(more) && Run(more).tx.Drained()
    ensures Run(more).built == Run(events).built
    decreases |Run(events).tx.cur| - Run(events).tx.pos
  {
    hide Run, Inv, Ended, Step;
    more := events;
    var l := Run(events);
    if !l.tx.Drained() {
      var e := Service(false, None, BYTES_PER_PASS);
      RunMore(events, e);
      PositionInside(l);
      SendsSome(l, e);
      more := Drains(events + [e]);
    }
  }

  lemma PositionInside(l: Log)
    requires Inv(l)
    ensures l.tx.pos <= |l.tx.cur|
  {}

  lemma SendsSome(l: Log, e: Event)
    requires l.tx.pos < |l.tx.cur| && e == Service(false, None, BYTES_PER_PASS)
    ensures var t := Step(l, e);
            t.built == l.built && t.tx.cur == l.tx.cur && l.tx.pos < t.tx.pos <= |t.tx.cur|
  {}

  lemma {:induction false} SomeRunBuilds(frames: seq<Frame>) returns (events: seq<Event>)
    requires AllBuildable(frames)
    ensures AllAdmissible(events)
    ensures Run(events).built == frames && Run(events).tx.Drained() && !Run(events).tx.wait
  {
    hide Run, Inv, Ended, Step;
    if frames == [] {
      events := [];
      NothingRun();
    } else {
      var n := |frames|;
      events := SomeRunBuilds(frames[..n - 1]);
      var e := Service(false, Some(frames[n - 1]), BYTES_PER_PASS);
      RunMore(events, e);
      BuildsOne(Run(events), e);
      events := Drains(events + [e]);
      assert frames == frames[..n - 1] + [frames[n - 1]];
      RunMore(events, InboundAccepted);
      ReleasesDrained(Run(events));
      events := events + [InboundAccepted];
    }
  }

  lemma NothingRun()
    ensures Run([]) == POWER_ON
  {}

  lemma BuildsOne(l: Log, e: Event)
    requires l.tx.Drained() && !l.tx.wait && e.Service? && Admissible(e) && e.ready.Some?
    ensures Step(l, e).built == l.built + [e.ready.value]
  {
    hide Body, Quota;
  }

  lemma ReleasesDrained(l: Log)
    requires l.tx.Drained()
    ensures var t := Step(l, InboundAccepted); t.built == l.built && t.tx.Drained() && !t.tx.wait
  {}

  /** One event at the real buffer. */
  method Perform(tx: TxBuf, e: Event, ghost l: Log) returns (sent: seq<byte>)
    requires Ready(tx) && Inv(l) && Regs(tx) == l.tx && Admissible(e)
    modifies tx, tx.buf
    ensures Ready(tx) && Regs(tx) == Step(l, e).tx && sent == Emitted(l, e)
  {
    hide Body, IdOf, Decide, Decided, Built, GuardedAck;
    sent := [];
    match e
    case Service(ticked, ready, room) =>
      sent := ServiceOutbound(tx, ticked, ready, room);
    case Acked(payload) =>
      AckArrived(tx, payload);
    case InboundAccepted =>
      ImplicitRelease(tx);
    case TextAccepted =>
      if l.built != [] { NewestShape(l); }
      ClearLlmAckWait(tx);
  }
}
