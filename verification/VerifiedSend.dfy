/**
 * Stop and wait over two first-in-first-out lines that lose and repeat: the bridge's verified send
 * against the C64's receiver, and the C64's sender against the bridge's.  Neither side sees more of
 * a frame's number than its seven-bit id.
 */
module VerifiedSend {
  import opened Frames
  import opened TransportIds
  import opened ReliableLink

  datatype System = System(
    next: nat,            // frames numbered below this have been sent
    waiting: bool,        // the newest frame still waits for its acknowledgment
    tries: nat,           // copies of it sent so far
    streak: nat,          // sends abandoned since the last confirmed one
    fwd: seq<nat>,        // frames on the line to the C64, oldest first
    rx: Receiver,         // the C64's newest id and the frames it dispatched
    ack: nat,             // frame whose id is in ack_id
    ackPending: bool,
    deferred: bool,       // a TEXT acknowledgment is held back
    back: seq<nat>,       // acknowledgments on the line to the bridge, oldest first
    confirmed: seq<nat>)  // sends that returned success

  const START := System(0, false, 0, 0, [], NOTHING, 0, false, false, [], [])

  datatype Event =
    | SendNew | Resend | Abandon
    | LoseFrame | RepeatFrame | DeliverFrame(busy: bool)
    | ReleaseDeferred | EmitAck
    | LoseAck | RepeatAck | ReceiveAck

  /**
   * When a sender moves on without a confirmation: after at least `least` copies, never sending
   * more than `most`, and at most `limit` sends in a row.
   */
  datatype Rule = Rule(limit: nat, least: nat, most: nat)

  predicate Sensible(rule: Rule) {
    1 <= rule.least <= rule.most
  }

  /** The bridge's verified send puts five copies on the line before it reports a failure. */
  function BridgeRule(limit: nat): Rule {
    Rule(limit, ATTEMPTS, ATTEMPTS)
  }

  predicate Ready(s: System, e: Event) {
    match e
    case SendNew => !s.waiting
    case Resend => s.waiting
    case Abandon => s.waiting
    case LoseFrame => s.fwd != []
    case RepeatFrame => s.fwd != []
    case DeliverFrame(_) => s.fwd != []
    case ReleaseDeferred => s.deferred
    case EmitAck => s.ackPending
    case LoseAck => s.back != []
    case RepeatAck => s.back != []
    case ReceiveAck => s.back != []
  }

  predicate Enabled(rule: Rule, s: System, e: Event) {
    && Ready(s, e)
    && (e.Resend? ==> s.tries < rule.most)
    && (e.Abandon? ==> s.tries >= rule.least && s.streak < rule.limit)
  }

  function Apply(isText: nat -> bool, s: System, e: Event): System
    requires Ready(s, e)
  {
    match e
    case SendNew => s.(next := s.next + 1, waiting := true, tries := 1, fwd := s.fwd + [s.next])
    case Resend => s.(tries := s.tries + 1, fwd := s.fwd + [if s.next > 0 then s.next - 1 else 0])
    case Abandon => s.(waiting := false, tries := 0, streak := s.streak + 1)
    case LoseFrame => s.(fwd := s.fwd[1..])
    case RepeatFrame => s.(fwd := [s.fwd[0]] + s.fwd)
    case DeliverFrame(busy) => Dispatch(isText, s.(fwd := s.fwd[1..]), s.fwd[0], busy)
    case ReleaseDeferred => s.(deferred := false, ackPending := true)
    case EmitAck => s.(ackPending := false, back := s.back + [s.ack])
    case LoseAck => s.(back := s.back[1..])
    case RepeatAck => s.(back := [s.back[0]] + s.back)
    case ReceiveAck => Confirm(s.(back := s.back[1..]), s.back[0])
  }

  /** The C64 on receipt of frame n: accept or treat as stale, and decide about the acknowledgment. */
  function Dispatch(isText: nat -> bool, s: System, n: nat, busy: bool): System {
    if Fresh(IdOf(n), s.rx.last) then
      var t := s.(rx := Receive(s.rx, n));
      if !isText(n) then t.(ack := n, ackPending := true)
      else if busy then t
      else t.(ack := n, deferred := true)
    else if isText(n) && s.deferred then s
    else s.(ack := n, ackPending := true)
  }

  /** The bridge on receipt of an acknowledgment: only its id is compared. */
  function Confirm(s: System, a: nat): System {
    if s.waiting && s.next > 0 && IdOf(a) == IdOf(s.next - 1)
    then s.(waiting := false, tries := 0, streak := 0, confirmed := s.confirmed + [s.next - 1])
    else s
  }

  function Exec(rule: Rule, isText: nat -> bool, events: seq<Event>): Option<System> {
    if events == [] then Some(START) else
    var e := events[|events| - 1];
    match Exec(rule, isText, events[..|events| - 1])
    case None => None
    case Some(s) => if Enabled(rule, s, e) then Some(Apply(isText, s, e)) else None
  }

  /** Whatever is confirmed was accepted, and nothing is accepted twice or out of order. */
  predicate Faithful(s: System) {
    && Increasing(s.rx.accepted) && Increasing(s.confirmed)
    && forall c :: c in s.confirmed ==> c in s.rx.accepted
  }

  ghost predicate Safe(rule: Rule) {
    forall isText: nat -> bool, events: seq<Event> ::
      Exec(rule, isText, events).Some? ==> Faithful(Exec(rule, isText, events).value)
  }

  // ---- the invariant ----

  function Newest(rx: Receiver): int {
    if rx.accepted == [] then -1 else rx.accepted[|rx.accepted| - 1]
  }

  function LastConfirmed(s: System): int {
    if s.confirmed == [] then -1 else s.confirmed[|s.confirmed| - 1]
  }

  /** A line in order, with everything on it between lo and hi. */
  predicate Line(q: seq<nat>, lo: int, hi: int) {
    && (forall i, j :: 0 <= i < j < |q| ==> q[i] <= q[j])
    && (forall i :: 0 <= i < |q| ==> lo <= q[i] <= hi)
  }

  lemma LineMoves(q: seq<nat>, lo: int, hi: int)
    requires q != [] && Line(q, lo, hi)
    ensures Line(q[1..], q[0], hi) && Line(q[1..], lo, hi) && Line([q[0]] + q, lo, hi)
    ensures lo <= q[0] <= hi
  {}

  lemma LineWidens(q: seq<nat>, lo: int, hi: int, more: int)
    requires Line(q, lo, hi) && hi <= more
    ensures Line(q, lo, more)
  {}

  lemma LinePush(q: seq<nat>, lo: int, hi: int, x: nat)
    requires Line(q, lo, hi) && hi <= x && lo <= x
    ensures Line(q + [x], lo, x)
  {}

  /** Numbers sent, abandoned and confirmed add up. */
  predicate Counts(s: System) {
    && s.streak <= 62
    && s.next == LastConfirmed(s) + 1 + s.streak + (if s.waiting then 1 else 0)
    && LastConfirmed(s) <= Newest(s.rx) < s.next
    && Increasing(s.confirmed)
  }

  predicate Knows(rx: Receiver) {
    && Increasing(rx.accepted)
    && rx.last == if rx.accepted == [] then 0 else IdOf(Newest(rx))
  }

  predicate Acknowledgments(s: System) {
    && Line(s.back, LastConfirmed(s), if s.ackPending || s.deferred then s.ack else Newest(s.rx))
    && (forall i :: 0 <= i < |s.back| ==> s.back[i] in s.rx.accepted)
    && (s.ackPending || s.deferred ==>
          s.ack in s.rx.accepted && LastConfirmed(s) <= s.ack <= Newest(s.rx))
  }

  predicate Inv(s: System) {
    && Counts(s)
    && Knows(s.rx)
    && (forall c :: c in s.confirmed ==> c in s.rx.accepted)
    && Line(s.fwd, Newest(s.rx), s.next - 1)
    && Acknowledgments(s)
  }

  lemma InvStep(isText: nat -> bool, s: System, e: Event)
    requires Inv(s) && Ready(s, e) && (e.Abandon? ==> s.streak < 62)
    ensures Inv(Apply(isText, s, e))
  {
    hide Dispatch, Confirm, Increasing, Knows, IdOf, Line;
    match e
    case SendNew =>
      LinePush(s.fwd, Newest(s.rx), s.next - 1, s.next);
    case Resend =>
      LinePush(s.fwd, Newest(s.rx), s.next - 1, s.next - 1);
    case Abandon =>
    case LoseFrame =>
      LineMoves(s.fwd, Newest(s.rx), s.next - 1);
    case RepeatFrame =>
      LineMoves(s.fwd, Newest(s.rx), s.next - 1);
    case DeliverFrame(busy) =>
      InvDispatch(isText, s, busy);
    case ReceiveAck =>
      InvConfirm(s);
    case _ =>
      InvAcks(isText, s, e);
  }

  lemma InvAcks(isText: nat -> bool, s: System, e: Event)
    requires Inv(s) && Ready(s, e)
    requires e.ReleaseDeferred? || e.EmitAck? || e.LoseAck? || e.RepeatAck?
    ensures Inv(Apply(isText, s, e))
  {
    hide Dispatch, Confirm, Increasing, Knows, IdOf, Line;
    var hi := if s.ackPending || s.deferred then s.ack else Newest(s.rx);
    if s.back != [] {
      LineMoves(s.back, LastConfirmed(s), hi);
    }
    if s.ackPending {
      LinePush(s.back, LastConfirmed(s), s.ack, s.ack);
      LineWidens(s.back + [s.ack], LastConfirmed(s), s.ack, Newest(s.rx));
    }
  }

  lemma InvDispatch(isText: nat -> bool, s: System, busy: bool)
    requires Inv(s) && s.fwd != []
    ensures Inv(Dispatch(isText, s.(fwd := s.fwd[1..]), s.fwd[0], busy))
  {
    hide Increasing, IdOf, C64Ahead;
    var n, t := s.fwd[0], s.(fwd := s.fwd[1..]);
    LineMoves(s.fwd, Newest(s.rx), s.next - 1);
    if s.rx.accepted != [] {
      WindowDecides(n, Newest(s.rx));
    }
    if Fresh(IdOf(n), s.rx.last) {
      assert n > Newest(s.rx);
      InvAccept(isText, t, n, busy);
    } else {
      assert n == Newest(s.rx);
    }
  }

  lemma InvAccept(isText: nat -> bool, s: System, n: nat, busy: bool)
    requires Inv(s) && Fresh(IdOf(n), s.rx.last) && Newest(s.rx) < n < s.next
    requires Line(s.fwd, n, s.next - 1)
    ensures Inv(Dispatch(isText, s, n, busy))
  {
    var u := Dispatch(isText, s, n, busy);
    Extended(s.rx.accepted, n);
    assert u.rx.accepted == s.rx.accepted + [n];
    assert Counts(u) && Knows(u.rx);
    assert Acknowledgments(u);
  }

  lemma InvConfirm(s: System)
    requires Inv(s) && s.back != []
    ensures Inv(Confirm(s.(back := s.back[1..]), s.back[0]))
  {
    hide Knows, IdOf;
    var a := s.back[0];
    var hi := if s.ackPending || s.deferred then s.ack else Newest(s.rx);
    LineMoves(s.back, LastConfirmed(s), hi);
    if s.waiting && IdOf(a) == IdOf(s.next - 1) {
      SameId(s.next - 1, a);
      assert a == s.next - 1 == Newest(s.rx);
      Extended(s.confirmed, a);
    }
  }

  lemma {:induction false} InvHolds(rule: Rule, isText: nat -> bool, events: seq<Event>)
    requires rule.limit <= 62
    ensures var r := Exec(rule, isText, events); r.Some? ==> Inv(r.value)
  {
    if events != [] {
      var init, e := events[..|events| - 1], events[|events| - 1];
      InvHolds(rule, isText, init);
      var r := Exec(rule, isText, init);
      if r.Some? && Enabled(rule, r.value, e) {
        InvStep(isText, r.value, e);
      }
    }
  }

  /** Every run with at most 62 unconfirmed sends in a row is faithful, whatever is lost or repeated. */
  lemma SafeUpTo62(rule: Rule)
    requires rule.limit <= 62
    ensures Safe(rule)
  {
    forall isText: nat -> bool, events: seq<Event> | Exec(rule, isText, events).Some?
      ensures Faithful(Exec(rule, isText, events).value)
    {
      InvHolds(rule, isText, events);
    }
  }

  // ---- 63 unconfirmed sends in a row are too many ----

  /** Frame 0 was confirmed; then k frames were lost with all their copies and abandoned. */
  function AfterLosses(k: nat): System {
    System(1 + k, false, 0, k, [], Receiver(IdOf(0), [0]), 0, false, false, [], [0])
  }

  const NO_TEXT := (n: nat) => false

  lemma Then(rule: Rule, events: seq<Event>, s: System, e: Event) returns (more: seq<Event>)
    requires Exec(rule, NO_TEXT, events) == Some(s) && Enabled(rule, s, e)
    ensures more == events + [e]
    ensures Exec(rule, NO_TEXT, more) == Some(Apply(NO_TEXT, s, e))
  {
    more := events + [e];
    assert more[..|events|] == events;
  }

  /** Every delivery is acknowledged at once; nothing is held back. */
  predicate Prompt(events: seq<Event>) {
    forall i :: 0 <= i < |events| && events[i].DeliverFrame? ==>
      !events[i].busy && i + 1 < |events| && events[i + 1].EmitAck?
  }

  lemma {:induction false} LosingRun(rule: Rule, k: nat) returns (events: seq<Event>)
    requires Sensible(rule) && k <= rule.limit
    ensures Exec(rule, NO_TEXT, events) == Some(AfterLosses(k)) && Prompt(events)
  {
    if k == 0 {
      events := DeliveredRun(rule, [], START);
      assert DeliveredState(START).confirmed == [0];
    } else {
      events := LosingRun(rule, k - 1);
      var s := AfterLosses(k - 1);
      events := Then(rule, events, s, SendNew);
      events := LoseCopies(rule, events, Apply(NO_TEXT, s, SendNew));
    }
  }

  /** Copy after copy is sent and lost, as many as the rule asks for; then the sender gives up. */
  lemma {:induction false} LoseCopies(rule: Rule, events: seq<Event>, s: System) returns (more: seq<Event>)
    requires Exec(rule, NO_TEXT, events) == Some(s) && Prompt(events) && Sensible(rule)
    requires s.waiting && |s.fwd| == 1 && 1 <= s.tries <= rule.least && s.streak < rule.limit && s.next > 0
    ensures Prompt(more)
    ensures Exec(rule, NO_TEXT, more) == Some(s.(fwd := [], waiting := false, tries := 0, streak := s.streak + 1))
    decreases rule.least - s.tries
  {
    hide Exec, Dispatch, Confirm;
    more := Then(rule, events, s, LoseFrame);
    assert s.fwd[1..] == [];
    var t := s.(fwd := []);
    if s.tries == rule.least {
      more := Then(rule, more, t, Abandon);
    } else {
      more := Then(rule, more, t, Resend);
      assert t.fwd + [s.next - 1] == [s.next - 1];
      more := LoseCopies(rule, more, t.(tries := s.tries + 1, fwd := [s.next - 1]));
    }
  }

  /** A new frame goes through and its acknowledgment comes back. */
  function DeliveredState(s: System): System
    requires !s.waiting && s.fwd == [] && s.back == []
  {
    var n := s.next;
    var rx := if Fresh(IdOf(n), s.rx.last) then Receive(s.rx, n) else s.rx;
    System(n + 1, false, 0, 0, [], rx, n, false, s.deferred, [], s.confirmed + [n])
  }

  lemma DeliveredRun(rule: Rule, events: seq<Event>, s: System) returns (more: seq<Event>)
    requires Exec(rule, NO_TEXT, events) == Some(s) && Prompt(events)
    requires !s.waiting && s.fwd == [] && s.back == []
    ensures Exec(rule, NO_TEXT, more) == Some(DeliveredState(s)) && Prompt(more)
  {
    hide Exec, Confirm, Receive, Fresh;
    var n := s.next;
    var rx := if Fresh(IdOf(n), s.rx.last) then Receive(s.rx, n) else s.rx;
    more := Then(rule, events, s, SendNew);
    var t := s.(next := n + 1, waiting := true, tries := 1, fwd := [n]);
    assert s.fwd + [n] == [n];
    more := Then(rule, more, t, DeliverFrame(false));
    assert t.fwd[1..] == [];
    more := AckReturns(rule, more, t.(fwd := [], rx := rx, ack := n, ackPending := true));
    assert more == events + [SendNew, DeliverFrame(false), EmitAck, ReceiveAck];
  }

  lemma AckReturns(rule: Rule, events: seq<Event>, s: System) returns (more: seq<Event>)
    requires Exec(rule, NO_TEXT, events) == Some(s)
    requires s.waiting && s.next > 0 && s.ackPending && s.ack == s.next - 1 && s.back == []
    ensures more == events + [EmitAck, ReceiveAck]
    ensures Exec(rule, NO_TEXT, more) ==
            Some(s.(ackPending := false, waiting := false, tries := 0, streak := 0, confirmed := s.confirmed + [s.ack]))
  {
    hide Exec, Dispatch;
    more := Then(rule, events, s, EmitAck);
    var t := s.(ackPending := false, back := [s.ack]);
    assert s.back + [s.ack] == [s.ack];
    more := Then(rule, more, t, ReceiveAck);
    assert t.back[1..] == [];
  }

  /** After 63 losses the next frame looks old: it is acknowledged, and confirmed, but never dispatched. */
  lemma UnfaithfulRun(rule: Rule) returns (events: seq<Event>)
    requires Sensible(rule) && rule.limit >= 63
    ensures Prompt(events)
    ensures Exec(rule, NO_TEXT, events).Some? && !Faithful(Exec(rule, NO_TEXT, events).value)
  {
    var losing := LosingRun(rule, 63);
    events := DeliveredRun(rule, losing, AfterLosses(63));
    var t := DeliveredState(AfterLosses(63));
    LossBound(0, 63);
    assert t.confirmed[1] == 64 && t.rx.accepted == [0];
    assert 64 in t.confirmed && 64 !in t.rx.accepted;
  }

  /**
   * However many copies a sender puts on the line before it moves on: a confirmed send means
   * delivery exactly when at most 62 sends in a row can go unconfirmed.
   */
  lemma ConfirmedMeansAccepted(rule: Rule)
    requires Sensible(rule)
    ensures Safe(rule) <==> rule.limit <= 62
  {
    if rule.limit <= 62 {
      SafeUpTo62(rule);
    } else {
      var events := UnfaithfulRun(rule);
    }
  }

  /** The bridge's verified send, with its five copies. */
  lemma VerifiedSendMeansAccepted(limit: nat)
    ensures Safe(BridgeRule(limit)) <==> limit <= 62
  {
    ConfirmedMeansAccepted(BridgeRule(limit));
  }

  // ---- the other direction: the C64's sender and the bridge's receiver ----

  /**
   * The C64 sends one to four copies and moves on without a confirmation when it gives up or when
   * any new bridge frame arrives; the bridge queues an acknowledgment for every arrival at once, and
   * what it has queued together with what is on the line is one queue.
   */
  ghost predicate SafeToBridge(limit: nat) {
    forall events: seq<Event> ::
      Prompt(events) && Exec(Rule(limit, 1, 4), NO_TEXT, events).Some? ==>
        Faithful(Exec(Rule(limit, 1, 4), NO_TEXT, events).value)
  }

  /** A guarded acknowledgment tells the C64 that the bridge took that frame exactly when at most 62 sends in a row end without one. */
  lemma AcknowledgedMeansTaken(limit: nat)
    ensures SafeToBridge(limit) <==> limit <= 62
  {
    if limit <= 62 {
      forall events: seq<Event> | Prompt(events) && Exec(Rule(limit, 1, 4), NO_TEXT, events).Some?
        ensures Faithful(Exec(Rule(limit, 1, 4), NO_TEXT, events).value)
      {
        InvHolds(Rule(limit, 1, 4), NO_TEXT, events);
      }
    } else {
      var events := UnfaithfulRun(Rule(limit, 1, 4));
    }
  }

  /** An implicit release says nothing of the kind: here frame 1 was sent once, lost, and left behind. */
  lemma ImplicitReleaseProvesNothing() returns (events: seq<Event>)
    ensures Prompt(events)
    ensures var s := Exec(Rule(1, 1, 4), NO_TEXT, events);
            s.Some? && s.value.next == 2 && !s.value.waiting && s.value.fwd == [] && 1 !in s.value.rx.accepted
  {
    events := LosingRun(Rule(1, 1, 4), 1);
  }
}
