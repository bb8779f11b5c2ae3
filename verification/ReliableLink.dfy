/** One direction of the reliable link: what a receiver that sees only seven-bit ids accepts. */
module ReliableLink {
  import opened Wire
  import opened TransportIds

  /** The receiver: the id of the newest accepted frame (0 when none), and the frames accepted so far. */
  datatype Receiver = Receiver(last: byte, accepted: seq<nat>)

  /** How often the bridge puts a frame on the line before it reports a failure. */
  const ATTEMPTS: nat := 5

  const NOTHING := Receiver(0, [])

  /** The frame with sequence number s arrives; only its id is looked at. */
  function Receive(rx: Receiver, s: nat): Receiver {
    if Fresh(IdOf(s), rx.last) then Receiver(IdOf(s), rx.accepted + [s]) else rx
  }

  function ReceiveAll(arrivals: seq<nat>): Receiver {
    if arrivals == [] then NOTHING
    else Receive(ReceiveAll(arrivals[..|arrivals| - 1]), arrivals[|arrivals| - 1])
  }

  // ---- the ideal receiver, with unbounded sequence numbers ----

  /** Frames later than everything before them. */
  function Records(arrivals: seq<nat>): seq<nat> {
    if arrivals == [] then [] else
    var r, s := Records(arrivals[..|arrivals| - 1]), arrivals[|arrivals| - 1];
    if r == [] || s > r[|r| - 1] then r + [s] else r
  }

  /** Every arrival is at most 63 frames away from the newest accepted one. */
  ghost predicate Windowed(arrivals: seq<nat>) {
    forall i :: 0 <= i < |arrivals| ==> InWindow(Records(arrivals[..i]), arrivals[i])
  }

  predicate InWindow(records: seq<nat>, s: nat) {
    records != [] ==> records[|records| - 1] - 63 <= s <= records[|records| - 1] + 63
  }

  /** The id of the newest frame, as the receiver remembers it. */
  predicate Remembers(rx: Receiver, records: seq<nat>) {
    rx.accepted == records && rx.last == if records == [] then 0 else IdOf(records[|records| - 1])
  }

  lemma {:induction false} IdsRefineNumbers(arrivals: seq<nat>)
    requires Windowed(arrivals)
    ensures Remembers(ReceiveAll(arrivals), Records(arrivals))
  {
    if arrivals != [] {
      var init, s := arrivals[..|arrivals| - 1], arrivals[|arrivals| - 1];
      assert Windowed(init) by {
        forall i | 0 <= i < |init| ensures InWindow(Records(init[..i]), init[i]) {
          assert init[..i] == arrivals[..i];
        }
      }
      IdsRefineNumbers(init);
      var r := Records(init);
      if r != [] {
        WindowDecides(s, r[|r| - 1]);
      }
    }
  }

  predicate Increasing(s: seq<nat>) {
    forall i, j :: 0 <= i < j < |s| ==> s[i] < s[j]
  }

  lemma {:induction false} RecordsProperties(arrivals: seq<nat>)
    ensures var r := Records(arrivals);
            && Increasing(r)
            && (forall x :: x in r ==> x in arrivals)
            && (forall x :: x in arrivals ==> r != [] && x <= r[|r| - 1])
  {
    if arrivals != [] {
      var init, s := arrivals[..|arrivals| - 1], arrivals[|arrivals| - 1];
      RecordsProperties(init);
      InLonger(arrivals);
      if Records(arrivals) != Records(init) {
        Extended(Records(init), s);
      }
    }
  }

  lemma InLonger(a: seq<nat>)
    requires a != []
    ensures forall x :: x in a <==> x in a[..|a| - 1] || x == a[|a| - 1]
  {
    assert a == a[..|a| - 1] + [a[|a| - 1]];
  }

  lemma Extended(r: seq<nat>, s: nat)
    requires Increasing(r) && (r == [] || s > r[|r| - 1])
    ensures Increasing(r + [s])
    ensures forall x :: x in r + [s] <==> x in r || x == s
  {}

  // ---- runs of sender, channel and receiver ----

  /** The channel may lose, repeat and reorder: it delivers any frame sent so far, any number of times. */
  datatype Event = Send | Deliver(s: nat)

  function Sent(run: seq<Event>): nat {
    if run == [] then 0
    else Sent(run[..|run| - 1]) + if run[|run| - 1].Send? then 1 else 0
  }

  ghost predicate Possible(run: seq<Event>) {
    forall i :: 0 <= i < |run| && run[i].Deliver? ==> run[i].s < Sent(run[..i])
  }

  function Arrivals(run: seq<Event>): seq<nat> {
    if run == [] then []
    else Arrivals(run[..|run| - 1]) + if run[|run| - 1].Send? then [] else [run[|run| - 1].s]
  }

  lemma {:induction false} OnlySentArrive(run: seq<Event>)
    requires Possible(run)
    ensures forall x :: x in Arrivals(run) ==> x < Sent(run)
  {
    if run != [] {
      var init := run[..|run| - 1];
      assert Possible(init) by {
        forall i | 0 <= i < |init| && init[i].Deliver? ensures init[i].s < Sent(init[..i]) {
          assert init[..i] == run[..i] && init[i] == run[i];
        }
      }
      OnlySentArrive(init);
    }
  }

  /**
   * Over any channel, while arrivals stay within the window, frames are accepted in the order they
   * were sent, none twice and none that was not sent.
   */
  lemma AcceptedInOrder(run: seq<Event>)
    requires Possible(run) && Windowed(Arrivals(run))
    ensures var accepted := ReceiveAll(Arrivals(run)).accepted;
            && Increasing(accepted)
            && (forall x :: x in accepted ==> x < Sent(run))
            && (forall x :: x in Arrivals(run) ==> accepted != [] && x <= accepted[|accepted| - 1])
  {
    IdsRefineNumbers(Arrivals(run));
    RecordsProperties(Arrivals(run));
    OnlySentArrive(run);
  }

  // ---- first in, first out, one frame outstanding ----

  /** With one frame outstanding on a first-in-first-out line, arrivals never go back. */
  predicate InOrder(arrivals: seq<nat>) {
    forall i, j :: 0 <= i < j < |arrivals| ==> arrivals[i] <= arrivals[j]
  }

  /** Frames lost with all their copies between two consecutive arrivals. */
  predicate SmallGap(from: nat, to: nat) {
    to == from || 1 <= (to - from) % 127 <= 63
  }

  ghost predicate SmallGaps(arrivals: seq<nat>) {
    forall i :: 0 < i < |arrivals| ==> SmallGap(arrivals[i - 1], arrivals[i])
  }

  /** After every single arrival the receiver has accepted what the ideal one has. */
  predicate AlwaysCurrent(arrivals: seq<nat>) {
    arrivals != [] ==>
      AlwaysCurrent(arrivals[..|arrivals| - 1]) && Remembers(ReceiveAll(arrivals), Records(arrivals))
  }

  /** On an in-order line the receiver keeps up at every moment exactly when no gap is too large. */
  lemma {:induction false} KeepsUpExactly(arrivals: seq<nat>)
    requires InOrder(arrivals)
    ensures AlwaysCurrent(arrivals) <==> SmallGaps(arrivals)
  {
    hide Fresh, IdOf, SmallGap;
    if arrivals != [] {
      var n := |arrivals|;
      var init := arrivals[..n - 1];
      KeepsUpExactly(init);
      GapsSoFar(arrivals);
      NewestIsLast(init);
      if n == 1 {
        FirstIsFresh(arrivals[0]);
      } else if AlwaysCurrent(init) {
        ReceiveExactly(ReceiveAll(init), Records(init), arrivals[n - 1]);
      }
    }
  }

  lemma FirstIsFresh(s: nat)
    ensures Fresh(IdOf(s), 0)
  {}

  lemma ReceiveExactly(rx: Receiver, records: seq<nat>, s: nat)
    requires records != [] && Remembers(rx, records) && s >= records[|records| - 1]
    ensures var newest := records[|records| - 1];
            Remembers(Receive(rx, s), if s > newest then records + [s] else records) <==> SmallGap(newest, s)
  {
    AheadExactly(s, records[|records| - 1]);
  }

  lemma GapsSoFar(arrivals: seq<nat>)
    requires arrivals != []
    ensures var n := |arrivals|;
            SmallGaps(arrivals) <==>
            SmallGaps(arrivals[..n - 1]) && (n > 1 ==> SmallGap(arrivals[n - 2], arrivals[n - 1]))
  {
    var n := |arrivals|;
    var init := arrivals[..n - 1];
    if SmallGaps(arrivals) {
      forall i | 0 < i < n - 1 ensures SmallGap(init[i - 1], init[i]) {
        assert SmallGap(arrivals[i - 1], arrivals[i]);
      }
    }
    if SmallGaps(init) && (n > 1 ==> SmallGap(arrivals[n - 2], arrivals[n - 1])) {
      forall i | 0 < i < n ensures SmallGap(arrivals[i - 1], arrivals[i]) {
        assert i < n - 1 ==> SmallGap(init[i - 1], init[i]);
      }
    }
  }

  lemma {:induction false} NewestIsLast(arrivals: seq<nat>)
    requires InOrder(arrivals)
    ensures arrivals != [] ==> Records(arrivals) != [] && Records(arrivals)[|Records(arrivals)| - 1] == arrivals[|arrivals| - 1]
  {
    if arrivals != [] {
      NewestIsLast(arrivals[..|arrivals| - 1]);
    }
  }

  /** 62 frames in a row may be lost with all their copies; the 63rd loss makes the next frame look old. */
  lemma LossBound(newest: nat, lost: nat)
    requires lost < 126
    ensures C64Ahead(IdOf(newest + lost + 1), IdOf(newest)) <==> lost <= 62
  {
    hide C64Ahead, IdOf;
    AheadExactly(newest + lost + 1, newest);
    assert (lost + 1) % 127 == lost + 1;
  }
}
