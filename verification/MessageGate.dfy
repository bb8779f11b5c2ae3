/** The first-come-first-served gate in front of the relay (and, with the same code, the overflow lane). */
module MessageGate {
  import opened Frames

  /** What the mutex protects: the busy flag and the tickets of the callers blocked on their channels. */
  datatype Gate = Gate(busy: bool, waiters: seq<nat>)

  function RemoveFirst(waiters: seq<nat>, c: nat): seq<nat> {
    if waiters == [] then []
    else if waiters[0] == c then waiters[1..]
    else [waiters[0]] + RemoveFirst(waiters[1..], c)
  }

  function Acquired(g: Gate, c: nat): Gate {
    if g.busy then g.(waiters := g.waiters + [c]) else g.(busy := true)
  }

  function Released(g: Gate): Gate {
    if g.waiters != [] then g.(waiters := g.waiters[1..]) else g.(busy := false)
  }

  class Lane {
    var busy: bool
    var waiters: seq<nat>

    function State(): Gate
      reads this
    {
      Gate(busy, waiters)
    }

    constructor ()
      ensures State() == Gate(false, [])
    {
      busy, waiters := false, [];
    }

    /** Under the lock: take a free gate, or leave a channel in the queue and block on it. */
    method Acquire(c: nat) returns (granted: bool)
      modifies this
      ensures State() == Acquired(old(State()), c) && granted == !old(busy)
    {
      if !busy {
        busy := true;
        return true;
      }
      waiters := waiters + [c];
      granted := false;
    }

    method TryAcquire() returns (granted: bool)
      modifies this
      ensures granted == !old(busy) && busy && waiters == old(waiters)
    {
      granted := !busy;
      busy := true;
    }

    /** Hands the gate to the longest waiter, whose channel is closed, or frees it. */
    method Release() returns (next: Option<nat>)
      modifies this
      ensures State() == Released(old(State()))
      ensures next == if old(waiters) == [] then None else Some(old(waiters)[0])
    {
      if |waiters| > 0 {
        next := Some(waiters[0]);
        waiters := waiters[1..];
        return;
      }
      busy := false;
      next := None;
    }

    /** A blocked caller gives up: its channel is removed if it is still queued. */
    method Cancel(c: nat)
      modifies this
      ensures State() == Gate(old(busy), RemoveFirst(old(waiters), c))
    {
      ghost var rest := waiters;
      for i := 0 to |waiters|
        invariant waiters == old(waiters)
        invariant rest == waiters[i..]
        invariant RemoveFirst(waiters, c) == waiters[..i] + RemoveFirst(rest, c)
      {
        if waiters[i] == c {
          waiters := waiters[..i] + waiters[i + 1..];
          return;
        }
        assert waiters[..i + 1] == waiters[..i] + [waiters[i]];
        rest := rest[1..];
      }
      assert RemoveFirst(rest, c) == [];
      assert waiters[..|waiters|] == waiters;
    }
  }

  // ---- runs ----

  /**
   * Everybody's view of the gate.  A caller is inside from the moment the gate is granted to it and
   * it returned from acquiring; a waiter whose channel was closed but who has not noticed is chosen.
   * Nothing here limits how many can be inside or chosen at once.
   */
  datatype History = History(
    gate: Gate,
    inside: set<nat>,
    chosen: set<nat>,
    arrivals: seq<nat>,  // every caller that took the gate or queued, in order
    granted: seq<nat>,   // every caller that was given the gate, in order
    gaveUp: set<nat>,    // callers that cancelled while queued
    orphaned: bool)      // a chosen waiter gave up

  const IDLE := History(Gate(false, []), {}, {}, [], [], {}, false)

  /** Tickets are fresh channels, so a caller arrives once. */
  datatype Event =
    | Acquire(c: nat) | TryAcquire(c: nat) | Notice(c: nat) | Release(c: nat)
    | CancelWaiting(c: nat) | CancelChosen(c: nat)

  function Holders(h: History): set<nat> {
    h.inside + h.chosen
  }

  predicate Enabled(h: History, e: Event) {
    match e
    case Acquire(c) => c !in h.arrivals
    case TryAcquire(c) => c !in h.arrivals
    case Notice(c) => c in h.chosen
    case Release(c) => c in h.inside
    case CancelWaiting(c) => c in h.gate.waiters
    case CancelChosen(c) => c in h.chosen
  }

  function Step(h: History, e: Event): History {
    match e
    case Acquire(c) =>
      var t := h.(gate := Acquired(h.gate, c), arrivals := h.arrivals + [c]);
      if h.gate.busy then t else t.(inside := h.inside + {c}, granted := h.granted + [c])
    case TryAcquire(c) =>
      if h.gate.busy then h
      else h.(gate := h.gate.(busy := true), inside := h.inside + {c},
              arrivals := h.arrivals + [c], granted := h.granted + [c])
    case Notice(c) => h.(inside := h.inside + {c}, chosen := h.chosen - {c})
    case Release(c) =>
      var t := h.(gate := Released(h.gate), inside := h.inside - {c});
      if h.gate.waiters == [] then t
      else t.(chosen := h.chosen + {h.gate.waiters[0]}, granted := h.granted + [h.gate.waiters[0]])
    case CancelWaiting(c) =>
      h.(gate := h.gate.(waiters := RemoveFirst(h.gate.waiters, c)), gaveUp := h.gaveUp + {c})
    case CancelChosen(c) =>
      h.(gate := h.gate.(waiters := RemoveFirst(h.gate.waiters, c)), chosen := h.chosen - {c}, orphaned := true)
  }

  function Run(events: seq<Event>): Option<History> {
    if events == [] then Some(IDLE) else
    match Run(events[..|events| - 1])
    case None => None
    case Some(h) => if Enabled(h, events[|events| - 1]) then Some(Step(h, events[|events| - 1])) else None
  }

  /** The real gate, driven through any run: it grants to the same callers, in the same order. */
  method Drive(lane: Lane, events: seq<Event>) returns (granted: seq<nat>)
    requires lane.State() == IDLE.gate && Run(events).Some?
    modifies lane
    ensures lane.State() == Run(events).value.gate
    ensures granted == Run(events).value.granted
  {
    hide Acquired, Released, RemoveFirst;
    granted := [];
    assert events[..0] == [];
    for i := 0 to |events|
      invariant Run(events[..i]).Some?
      invariant lane.State() == Run(events[..i]).value.gate && granted == Run(events[..i]).value.granted
    {
      RunSoFar(events, i + 1);
      assert events[..i + 1][..i] == events[..i];
      var more := Perform(lane, events[i]);
      granted := granted + more;
    }
    assert events[..|events|] == events;
  }

  /** One event at the real gate, and whom it lets in. */
  method Perform(lane: Lane, e: Event) returns (granted: seq<nat>)
    modifies lane
    ensures forall h: History :: h.gate == old(lane.State()) ==>
              lane.State() == Step(h, e).gate && h.granted + granted == Step(h, e).granted
  {
    granted := [];
    match e
    case Acquire(c) =>
      var ok := lane.Acquire(c);
      granted := if ok then [c] else [];
    case TryAcquire(c) =>
      var ok := lane.TryAcquire();
      granted := if ok then [c] else [];
    case Release(_) =>
      var next := lane.Release();
      granted := if next.Some? then [next.value] else [];
    case CancelWaiting(c) =>
      lane.Cancel(c);
    case CancelChosen(c) =>
      lane.Cancel(c);
    case Notice(_) =>
  }

  lemma {:induction false} RunSoFar(events: seq<Event>, k: nat)
    requires Run(events).Some? && k <= |events|
    ensures Run(events[..k]).Some?
    decreases |events|
  {
    if k == |events| {
      assert events[..k] == events;
    } else {
      RunSoFar(events[..|events| - 1], k);
      assert events[..|events| - 1][..k] == events[..k];
    }
  }

  // ---- mutual exclusion and fairness ----

  /** The callers that did not give up while queued, in order of arrival. */
  function Patient(arrivals: seq<nat>, gaveUp: set<nat>): seq<nat> {
    if arrivals == [] then []
    else Patient(arrivals[..|arrivals| - 1], gaveUp) +
         if arrivals[|arrivals| - 1] in gaveUp then [] else [arrivals[|arrivals| - 1]]
  }

  predicate Distinct(s: seq<nat>) {
    forall i, j :: 0 <= i < j < |s| ==> s[i] != s[j]
  }

  predicate AtMostOne(s: set<nat>) {
    forall a, b :: a in s && b in s ==> a == b
  }

  /** The flag is up while somebody holds the gate, or for ever once it was lost. */
  ghost predicate Exclusive(h: History) {
    && AtMostOne(Holders(h)) && h.inside !! h.chosen
    && (h.gate.busy <==> Holders(h) != {} || h.orphaned)
    && (h.orphaned ==> Holders(h) == {})
    && (h.gate.waiters != [] ==> h.gate.busy)
  }

  ghost predicate InTurn(h: History) {
    && Distinct(h.arrivals)
    && (forall c :: c in h.gaveUp ==> c in h.arrivals)
    && h.granted + h.gate.waiters == Patient(h.arrivals, h.gaveUp)
    && (forall c :: c in Holders(h) ==> c in h.granted)
  }

  lemma ExclusiveStep(h: History, e: Event)
    requires Exclusive(h) && InTurn(h) && Enabled(h, e)
    ensures Exclusive(Step(h, e))
  {
    hide RemoveFirst, InTurn;
    match e
    case CancelWaiting(c) =>
      assert h.gate.busy;
    case CancelChosen(c) =>
      assert c in Holders(h);
      assert h.gate.busy;
    case _ =>
  }

  lemma InTurnStep(h: History, e: Event)
    requires Exclusive(h) && InTurn(h) && Enabled(h, e)
    ensures InTurn(Step(h, e))
  {
    hide RemoveFirst, Distinct, Exclusive, Patient;
    match e
    case Acquire(c) =>
      WaitersMeanBusy(h);
      Arrives(h, c);
    case TryAcquire(c) =>
      WaitersMeanBusy(h);
      Arrives(h, c);
    case Release(_) =>
      assert h.gate.waiters != [] ==> h.gate.waiters == [h.gate.waiters[0]] + h.gate.waiters[1..];
    case CancelWaiting(c) =>
      Leaves(h, c);
    case CancelChosen(c) =>
      assert c in Holders(h);
      Apart(h);
      NotThere(h.gate.waiters, c);
    case Notice(_) =>
  }

  lemma WaitersMeanBusy(h: History)
    requires Exclusive(h)
    ensures h.gate.waiters != [] ==> h.gate.busy
  {}

  /** Nobody is both granted and waiting. */
  lemma Apart(h: History)
    requires InTurn(h)
    ensures forall c :: c in h.granted ==> c !in h.gate.waiters
  {
    PatientDistinct(h.arrivals, h.gaveUp);
    var p := h.granted + h.gate.waiters;
    forall c | c in h.granted ensures c !in h.gate.waiters {
      var i :| 0 <= i < |h.granted| && h.granted[i] == c;
      forall j | 0 <= j < |h.gate.waiters| ensures h.gate.waiters[j] != c {
        assert p[i] != p[|h.granted| + j];
      }
    }
  }

  lemma Arrives(h: History, c: nat)
    requires InTurn(h) && c !in h.arrivals
    ensures Distinct(h.arrivals + [c])
    ensures Patient(h.arrivals + [c], h.gaveUp) == Patient(h.arrivals, h.gaveUp) + [c]
    ensures (h.granted + h.gate.waiters) + [c] == h.granted + (h.gate.waiters + [c])
  {
    assert (h.arrivals + [c])[..|h.arrivals|] == h.arrivals;
  }

  lemma Leaves(h: History, c: nat)
    requires InTurn(h) && c in h.gate.waiters
    ensures h.granted + RemoveFirst(h.gate.waiters, c) == Patient(h.arrivals, h.gaveUp + {c})
    ensures c in h.arrivals
  {
    Apart(h);
    PatientDistinct(h.arrivals, h.gaveUp);
    PatientWithout(h.arrivals, h.gaveUp, c);
    assert c in h.granted + h.gate.waiters;
    RemovePrefix(h.granted, h.gate.waiters, c);
  }

  lemma {:induction false} PatientDistinct(arrivals: seq<nat>, gaveUp: set<nat>)
    requires Distinct(arrivals)
    ensures Distinct(Patient(arrivals, gaveUp))
    ensures forall c :: c in Patient(arrivals, gaveUp) <==> c in arrivals && c !in gaveUp
  {
    if arrivals != [] {
      var init, c := arrivals[..|arrivals| - 1], arrivals[|arrivals| - 1];
      PatientDistinct(init, gaveUp);
      assert arrivals == init + [c];
    }
  }

  lemma {:induction false} PatientWithout(arrivals: seq<nat>, gaveUp: set<nat>, c: nat)
    requires Distinct(arrivals)
    ensures Patient(arrivals, gaveUp + {c}) == RemoveFirst(Patient(arrivals, gaveUp), c)
  {
    if arrivals != [] {
      var init, d := arrivals[..|arrivals| - 1], arrivals[|arrivals| - 1];
      PatientWithout(init, gaveUp, c);
      PatientDistinct(init, gaveUp);
      var p := Patient(init, gaveUp);
      if d in gaveUp {
        assert p + [] == p;
      } else if d == c {
        NotThere(p, c);
        RemovePrefix(p, [c], c);
      } else {
        RemoveSuffix(p, d, c);
      }
    }
  }

  lemma {:induction false} NotThere(s: seq<nat>, c: nat)
    requires c !in s
    ensures RemoveFirst(s, c) == s
  {
    if s != [] { NotThere(s[1..], c); }
  }

  lemma {:induction false} RemovePrefix(p: seq<nat>, s: seq<nat>, c: nat)
    requires c !in p
    ensures RemoveFirst(p + s, c) == p + RemoveFirst(s, c)
  {
    if p == [] {
      assert p + s == s;
    } else {
      assert (p + s)[1..] == p[1..] + s;
      RemovePrefix(p[1..], s, c);
    }
  }

  lemma {:induction false} RemoveSuffix(p: seq<nat>, d: nat, c: nat)
    requires d != c
    ensures RemoveFirst(p + [d], c) == RemoveFirst(p, c) + [d]
  {
    if p == [] {
      assert p + [d] == [d];
      assert [d][1..] == [];
    } else {
      assert (p + [d])[1..] == p[1..] + [d];
      RemoveSuffix(p[1..], d, c);
    }
  }

  /** The flag is lost exactly when some waiter gave up after it had been chosen. */
  lemma {:induction false} OrphanedExactly(events: seq<Event>)
    requires Run(events).Some?
    ensures Run(events).value.orphaned <==> exists c :: CancelChosen(c) in events
  {
    hide RemoveFirst, Acquired, Released;
    if events != [] {
      var init, e := events[..|events| - 1], events[|events| - 1];
      OrphanedExactly(init);
      assert events == init + [e];
      if exists c :: CancelChosen(c) in init {
        var c :| CancelChosen(c) in init;
        assert CancelChosen(c) in events;
      }
      if e.CancelChosen? {
        assert CancelChosen(e.c) in events;
      }
    }
  }

  /**
   * In every run at most one caller holds the gate or has been handed it; waiters exist only while
   * it is busy; it is granted in order of arrival to those that did not give up; and busy means
   * held exactly when no chosen waiter ever gave up.
   */
  lemma {:induction false} EveryRunIsFair(events: seq<Event>)
    requires Run(events).Some?
    ensures var h := Run(events).value;
            && AtMostOne(Holders(h))
            && (h.gate.waiters != [] ==> h.gate.busy)
            && h.granted + h.gate.waiters == Patient(h.arrivals, h.gaveUp)
            && ((h.gate.busy <==> Holders(h) != {}) <==> !exists c :: CancelChosen(c) in events)
  {
    hide Step;
    RunKeeps(events);
    OrphanedExactly(events);
  }

  lemma {:induction false} RunKeeps(events: seq<Event>)
    requires Run(events).Some?
    ensures Exclusive(Run(events).value) && InTurn(Run(events).value)
  {
    hide Step, Exclusive, InTurn;
    if events == [] {
      StartKeeps();
    } else {
      var init, e := events[..|events| - 1], events[|events| - 1];
      RunKeeps(init);
      ExclusiveStep(Run(init).value, e);
      InTurnStep(Run(init).value, e);
    }
  }

  lemma StartKeeps()
    ensures Exclusive(IDLE) && InTurn(IDLE)
  {}

  /**
   * In every run a caller gets what it asks for: the gate if nobody holds it and none was lost,
   * else the last place in the queue, or a refusal if it only tried; a release hands the gate to
   * the first in the queue, and who gives up loses its own place only.
   */
  lemma EveryCallIsAnswered(events: seq<Event>, e: Event)
    requires Run(events).Some? && Enabled(Run(events).value, e)
    ensures var h := Run(events).value;
            var t, free := Step(h, e), Holders(h) == {} && !h.orphaned;
            match e
            case Acquire(c) =>
              if free then t.inside == {c} && t.gate.waiters == []
              else t.gate.waiters == h.gate.waiters + [c] && Holders(t) == Holders(h)
            case TryAcquire(c) =>
              t.gate.waiters == h.gate.waiters && t.inside == (if free then {c} else h.inside)
            case Notice(c) => c in t.inside && Holders(t) == Holders(h) && t.gate == h.gate
            case Release(c) =>
              && c !in Holders(t)
              && if h.gate.waiters == [] then Holders(t) == {} && !t.gate.busy
                 else t.chosen == {h.gate.waiters[0]} && t.gate.waiters == h.gate.waiters[1..]
            case CancelWaiting(c) =>
              exists p, q :: h.gate.waiters == p + [c] + q && t.gate.waiters == p + q && Holders(t) == Holders(h)
            case CancelChosen(c) => Holders(t) == {} && t.gate.waiters == h.gate.waiters
  {
    hide Run, InTurn, RemoveFirst;
    RunKeeps(events);
    var h := Run(events).value;
    Alone(h);
    match e
    case Release(c) =>
      NotHolding(h, c);
    case CancelWaiting(c) =>
      var p, q := Around(h.gate.waiters, c);
    case CancelChosen(c) =>
      NotWaiting(h, c);
    case _ =>
  }

  lemma Alone(h: History)
    requires Exclusive(h)
    ensures forall c :: c in h.inside ==> h.inside == {c} && h.chosen == {}
    ensures forall c :: c in h.chosen ==> h.chosen == {c} && h.inside == {}
  {
    forall c | c in h.inside ensures h.inside == {c} && h.chosen == {} {
      assert forall d :: d in Holders(h) ==> d == c;
    }
    forall c | c in h.chosen ensures h.chosen == {c} && h.inside == {} {
      assert forall d :: d in Holders(h) ==> d == c;
    }
  }

  /** The holder does not wait at the same time. */
  lemma NotHolding(h: History, c: nat)
    requires Exclusive(h) && InTurn(h) && c in Holders(h)
    ensures c !in h.gate.waiters
  {
    hide Exclusive, Patient;
    Apart(h);
  }

  lemma NotWaiting(h: History, c: nat)
    requires Exclusive(h) && InTurn(h) && c in h.chosen
    ensures RemoveFirst(h.gate.waiters, c) == h.gate.waiters
  {
    NotHolding(h, c);
    NotThere(h.gate.waiters, c);
  }

  lemma {:induction false} Around(s: seq<nat>, c: nat) returns (p: seq<nat>, q: seq<nat>)
    requires c in s
    ensures s == p + [c] + q && RemoveFirst(s, c) == p + q
  {
    if s[0] == c {
      p, q := [], s[1..];
    } else {
      p, q := Around(s[1..], c);
      assert s == [s[0]] + (p + [c] + q);
      p := [s[0]] + p;
    }
  }

  /** Whenever the gate is granted, nobody holds it, except a holder that releases it in that very step. */
  lemma GrantedOnlyWhenFree(events: seq<Event>, e: Event)
    requires Run(events).Some? && Enabled(Run(events).value, e)
    ensures var h := Run(events).value;
            Step(h, e).granted != h.granted ==> Holders(h) == if e.Release? then {e.c} else {}
  {
    RunKeeps(events);
    var h := Run(events).value;
    assert e.Release? ==> e.c in Holders(h);
  }

  /** The price of giving up after being chosen: the gate stays busy and nobody is ever granted it again. */
  lemma {:induction false} OrphanedForever(events: seq<Event>, more: seq<Event>)
    requires Run(events).Some? && Run(events).value.orphaned
    ensures Run(events + more).Some? ==>
              var h := Run(events + more).value;
              h.orphaned && h.gate.busy && h.granted == Run(events).value.granted
  {
    RunKeeps(events);
    if more == [] {
      assert events + more == events;
    } else {
      var init := more[..|more| - 1];
      assert (events + more)[..|events + more| - 1] == events + init;
      OrphanedForever(events, init);
      if Run(events + more).Some? {
        RunKeeps(events + init);
      }
    }
  }
}
