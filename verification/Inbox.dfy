/** How the bridge takes reliable C64 frames: id stripping, acknowledgment, duplicate suppression. */
module Inbox {
  import opened Wire
  import opened Frames
  import opened TransportIds
  import opened ReliableLink

  /** Id and type of the newest accepted frame; 0 and 0 before the first. */
  datatype Newest = Newest(id: byte, typ: byte)

  datatype Verdict = Verdict(newest: Newest, ack: Option<byte>, frame: Frame, duplicate: bool)

  /** One arriving frame: what is acknowledged, what is left of it, and whether it was seen before. */
  function Accept(b: Newest, f: Frame): Verdict {
    if !ReliableC64(f.typ) || f.payload == [] then Verdict(b, None, f, false) else
    var id, g := f.payload[0], Frame(f.typ, f.payload[1..]);
    if id == b.id && f.typ == b.typ then Verdict(b, Some(id), g, true)
    else if b.id != 0 && !GoAhead(id, b.id) then Verdict(b, Some(id), g, true)
    else Verdict(Newest(id, f.typ), Some(id), g, false)
  }

  // ---- a whole sequence of arrivals ----

  const SILENT := Newest(0, 0)

  function After(heard: seq<Frame>): Newest {
    if heard == [] then SILENT
    else Accept(After(heard[..|heard| - 1]), heard[|heard| - 1]).newest
  }

  function LastVerdict(heard: seq<Frame>): Verdict
    requires heard != []
  {
    Accept(After(heard[..|heard| - 1]), heard[|heard| - 1])
  }

  /** The frames that count, in arrival order, ids stripped. */
  function FreshFrames(heard: seq<Frame>): seq<Frame> {
    if heard == [] then [] else
    FreshFrames(heard[..|heard| - 1]) + Contribution(heard)
  }

  function Contribution(heard: seq<Frame>): seq<Frame>
    requires heard != []
  {
    var v := LastVerdict(heard);
    if ReliableC64(heard[|heard| - 1].typ) && !v.duplicate then [v.frame] else []
  }

  /** The ids acknowledged, one per reliable arrival that carries one. */
  function AckedIds(heard: seq<Frame>): seq<byte> {
    if heard == [] then [] else
    var v := LastVerdict(heard);
    AckedIds(heard[..|heard| - 1]) + if v.ack.Some? then [v.ack.value] else []
  }

  // ---- what freshness means: numbered frames ----

  /** Either the n-th reliable frame of the C64 arrives, or something outside the reliable protocol. */
  datatype Arrival = Numbered(n: nat) | Other(frame: Frame)

  predicate Outside(a: Arrival) {
    a.Other? ==> !ReliableC64(a.frame.typ)
  }

  function OnWire(content: nat -> Frame, a: Arrival): Frame {
    if a.Numbered? then WithID(IdOf(a.n), content(a.n)) else a.frame
  }

  function OnWires(content: nat -> Frame, arrivals: seq<Arrival>): (w: seq<Frame>)
    ensures |w| == |arrivals|
  {
    if arrivals == [] then []
    else OnWires(content, arrivals[..|arrivals| - 1]) + [OnWire(content, arrivals[|arrivals| - 1])]
  }

  function Numbers(arrivals: seq<Arrival>): seq<nat> {
    if arrivals == [] then [] else
    Numbers(arrivals[..|arrivals| - 1]) +
    if arrivals[|arrivals| - 1].Numbered? then [arrivals[|arrivals| - 1].n] else []
  }

  function Contents(content: nat -> Frame, numbers: seq<nat>): seq<Frame> {
    if numbers == [] then []
    else Contents(content, numbers[..|numbers| - 1]) + [content(numbers[|numbers| - 1])]
  }

  function NewestOf(content: nat -> Frame, records: seq<nat>): Newest {
    if records == [] then SILENT
    else Newest(IdOf(records[|records| - 1]), content(records[|records| - 1]).typ)
  }

  /** The duplicate test of the bridge is the ideal receiver's, as long as arrivals stay in the window. */
  lemma {:induction false} FreshMeansNew(content: nat -> Frame, arrivals: seq<Arrival>)
    requires forall n :: ReliableC64(content(n).typ)
    requires forall i :: 0 <= i < |arrivals| ==> Outside(arrivals[i])
    requires Windowed(Numbers(arrivals))
    ensures var heard, records := OnWires(content, arrivals), Records(Numbers(arrivals));
            && FreshFrames(heard) == Contents(content, records)
            && After(heard) == NewestOf(content, records)
  {
    hide IdOf, GoAhead, ReliableC64, Windowed, Accept;
    if arrivals != [] {
      var init, a := arrivals[..|arrivals| - 1], arrivals[|arrivals| - 1];
      var heard, numbers := OnWires(content, arrivals), Numbers(arrivals);
      assert heard[..|heard| - 1] == OnWires(content, init) && heard[|heard| - 1] == OnWire(content, a);
      var records := Records(Numbers(init));
      if a.Numbered? {
        assert numbers[..|numbers| - 1] == Numbers(init);
        WindowedInit(numbers);
        FreshMeansNew(content, init);
        AcceptNumbered(content, records, a.n);
        assert (records + [a.n])[..|records|] == records;
      } else {
        assert numbers == Numbers(init);
        FreshMeansNew(content, init);
        AcceptOther(NewestOf(content, records), a.frame);
      }
    }
  }

  /** On numbered frames the bridge is the abstract receiver, whatever arrives, and acknowledges every arrival. */
  lemma AcceptIsReceive(b: Newest, rx: Receiver, n: nat, f: Frame)
    requires ReliableC64(f.typ) && b.id == rx.last <= 0x7F
    ensures var v, t := Accept(b, WithID(IdOf(n), f)), Receive(rx, n);
            && v.frame == f && v.ack == Some(IdOf(n)) && v.newest.id == t.last
            && (v.duplicate <==> t.accepted == rx.accepted)
            && (!v.duplicate <==> t.accepted == rx.accepted + [n])
  {
    hide ReliableC64, IdOf, GoAhead, C64Ahead;
    assert ([IdOf(n)] + f.payload)[1..] == f.payload;
    assert rx.accepted + [n] != rx.accepted;
    SameTest(IdOf(n), b.id);
    NeverAheadOfItself(IdOf(n));
  }

  lemma NeverAheadOfItself(id: byte)
    ensures !C64Ahead(id, id) && !GoAhead(id, id)
  {}

  lemma AcceptNumbered(content: nat -> Frame, records: seq<nat>, n: nat)
    requires ReliableC64(content(n).typ) && InWindow(records, n)
    ensures var v := Accept(NewestOf(content, records), WithID(IdOf(n), content(n)));
            var new' := records == [] || n > records[|records| - 1];
            && v.frame == content(n) && v.ack == Some(IdOf(n))
            && v.duplicate == !new'
            && v.newest == NewestOf(content, if new' then records + [n] else records)
            && ReliableC64(WithID(IdOf(n), content(n)).typ)
  {
    hide GoAhead;
    assert content(n) == Frame(content(n).typ, ([IdOf(n)] + content(n).payload)[1..]);
    if records != [] {
      WindowDecides(n, records[|records| - 1]);
    }
  }

  lemma AcceptOther(b: Newest, f: Frame)
    requires !ReliableC64(f.typ)
    ensures Accept(b, f) == Verdict(b, None, f, false)
  {}

  lemma WindowedInit(numbers: seq<nat>)
    requires numbers != [] && Windowed(numbers)
    ensures Windowed(numbers[..|numbers| - 1])
    ensures InWindow(Records(numbers[..|numbers| - 1]), numbers[|numbers| - 1])
  {
    var init := numbers[..|numbers| - 1];
    forall i | 0 <= i < |init| ensures InWindow(Records(init[..i]), init[i]) {
      assert init[..i] == numbers[..i];
    }
  }
}
