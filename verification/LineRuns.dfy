/**
 * What the C64 puts on the line: transmissions of its frames, and acknowledgments that may go out
 * between them or in their middle; and what the bridge decodes of it.
 */
module LineRuns {
  import opened Wire
  import opened Frames
  import opened TransportIds
  import opened TxBuffer
  import opened SenderRuns
  import opened Streams
  import opened GoCodec
  import GoStreams
  import Outbound

  datatype Event = Sender(e: Outbound.Event) | AckOut(id: byte)

  /** A frame that went out in one piece (own: the sender's, else an acknowledgment), or one with something in its middle. */
  datatype Item = Whole(own: bool, frame: Frame, bytes: seq<byte>) | Torn(bytes: seq<byte>)

  /**
   * The sender's log; everything on the line; the same cut into items and the transmission under
   * way; whether that one was interrupted; and per frame how many transmissions went out whole and torn.
   */
  datatype Line = Line(log: Log, wire: seq<byte>, items: seq<Item>, partial: seq<byte>, broken: bool,
                       whole: seq<nat>, torn: seq<nat>)

  const QUIET := Line(POWER_ON, [], [], [], false, [], [])

  predicate Admissible(e: Event) {
    e.Sender? ==> Outbound.Admissible(e.e)
  }

  /** No transmission is under way. */
  predicate Between(t: Line) {
    t.log.tx.Drained() || t.log.tx.pos == 0
  }

  function Step(t: Line, e: Event): Line
    requires t.log.tx.pos <= |t.log.tx.cur| && Admissible(e)
  {
    match e
    case Sender(s) =>
      var u := Sent(t, s);
      if u.log.tx.Drained() && u.partial != [] then Finished(u) else u
    case AckOut(id) =>
      var w := Outbound.AckImage(id);
      if Between(t) then t.(wire := t.wire + w, items := t.items + [Whole(false, Frame(ACK, [Low7(id)]), w)])
      else t.(wire := t.wire + w, partial := t.partial + w, broken := true)
  }

  /** The bytes a step of the sender puts on the line belong to the transmission under way. */
  function Sent(t: Line, e: Outbound.Event): Line
    requires t.log.tx.pos <= |t.log.tx.cur| && Outbound.Admissible(e)
  {
    var sent, log := Emitted(t.log, e), SenderRuns.Step(t.log, e);
    var u := t.(log := log, wire := t.wire + sent, partial := t.partial + sent);
    if |log.built| > |t.log.built| then u.(whole := t.whole + [0], torn := t.torn + [0]) else u
  }

  /** A transmission has come to its end. */
  function Finished(t: Line): Line {
    var n := |t.log.built|;
    if n == 0 || |t.whole| == 0 || |t.torn| == 0 then t
    else if t.broken then
      t.(items := t.items + [Torn(t.partial)], torn := Bumped(t.torn), partial := [], broken := false)
    else
      t.(items := t.items + [Whole(true, WithID(IdOf(n - 1), Dulled(t.log.built[n - 1])), t.partial)],
         whole := Bumped(t.whole), partial := [])
  }

  function Bytes(items: seq<Item>): seq<byte> {
    if items == [] then [] else Bytes(items[..|items| - 1]) + items[|items| - 1].bytes
  }

  /** The frames that went out whole: all of them, or only the sender's own. */
  function WholeFrames(items: seq<Item>): seq<Frame> {
    if items == [] then [] else
    var x := items[|items| - 1];
    WholeFrames(items[..|items| - 1]) + if x.Whole? then [x.frame] else []
  }

  function OwnFrames(items: seq<Item>): seq<Frame> {
    if items == [] then [] else
    var x := items[|items| - 1];
    OwnFrames(items[..|items| - 1]) + if x.Whole? && x.own then [x.frame] else []
  }

  // ---- the frames a bridge can hear ----

  function DulledAll(built: seq<Frame>): (d: seq<Frame>)
    ensures |d| == |built|
    ensures forall i :: 0 <= i < |built| ==> d[i] == Dulled(built[i])
  {
    seq(|built|, i requires 0 <= i < |built| => Dulled(built[i]))
  }

  /** Frames arrive unchanged exactly if their payloads are seven-bit. */
  lemma DulledExactly(built: seq<Frame>)
    ensures DulledAll(built) == built <==> forall i :: 0 <= i < |built| ==> SevenBit(built[i].payload)
  {
    forall i | 0 <= i < |built| ensures Dulled(built[i]) == built[i] <==> SevenBit(built[i].payload) {
      MaskedSevenBit(built[i].payload);
    }
    if DulledAll(built) == built {
      assert forall i :: 0 <= i < |built| ==> DulledAll(built)[i] == built[i];
    }
  }

  function Repeat(f: Frame, n: nat): seq<Frame> {
    if n == 0 then [] else Repeat(f, n - 1) + [f]
  }

  /** The frames in order, each with its id and as often as `copies` says. */
  function Heard(built: seq<Frame>, copies: seq<nat>): seq<Frame>
    requires |built| == |copies|
  {
    var n := |built|;
    if n == 0 then []
    else Heard(built[..n - 1], copies[..n - 1]) + Repeat(WithID(IdOf(n - 1), built[n - 1]), copies[n - 1])
  }

  lemma HeardNext(built: seq<Frame>, copies: seq<nat>, f: Frame)
    requires |built| == |copies|
    ensures Heard(built + [f], copies + [0]) == Heard(built, copies)
  {
    assert (built + [f])[..|built|] == built && (copies + [0])[..|copies|] == copies;
    assert Repeat(WithID(IdOf(|built|), f), 0) == [];
  }

  lemma HeardAgain(built: seq<Frame>, copies: seq<nat>)
    requires |built| == |copies| > 0
    ensures Heard(built, Bumped(copies)) == Heard(built, copies) + [WithID(IdOf(|built| - 1), built[|built| - 1])]
  {
    hide IdOf;
    var n := |built|;
    assert Bumped(copies)[..n - 1] == copies[..n - 1] && Bumped(copies)[n - 1] == copies[n - 1] + 1;
  }

  // ---- the invariant ----

  /** An item is what it says, and starts with a sync byte. */
  ghost predicate Honest(x: Item) {
    && x.bytes != [] && x.bytes[0] == SYNC
    && (x.Whole? ==>
          && Carries(x.bytes, x.frame) && KnownType(x.frame.typ)
          && if x.own then ReliableC64(x.frame.typ) else x.frame.typ == ACK)
  }

  ghost predicate AllHonest(items: seq<Item>) {
    forall i :: 0 <= i < |items| ==> Honest(items[i])
  }

  /** Nothing was interrupted. */
  predicate AllWhole(items: seq<Item>) {
    forall i :: 0 <= i < |items| ==> items[i].Whole?
  }

  lemma ItemsMore(items: seq<Item>, x: Item)
    ensures Bytes(items + [x]) == Bytes(items) + x.bytes
    ensures OwnFrames(items + [x]) == OwnFrames(items) + if x.Whole? && x.own then [x.frame] else []
    ensures AllHonest(items) && Honest(x) ==> AllHonest(items + [x])
    ensures AllWhole(items + [x]) <==> AllWhole(items) && x.Whole?
  {
    hide Honest;
    var more := items + [x];
    assert more[..|items|] == items && more[|items|] == x;
    if AllWhole(more) {
      assert forall i :: 0 <= i < |items| ==> items[i] == more[i];
    }
  }

  lemma Assoc(a: seq<byte>, b: seq<byte>, c: seq<byte>)
    ensures (a + b) + c == a + (b + c)
    ensures a + [] == a
  {}

  ghost predicate Cut(t: Line) {
    && t.log.tx.pos <= |t.log.tx.cur|
    && t.wire == Bytes(t.items) + t.partial
    && AllHonest(t.items)
    && (Between(t) ==> t.partial == [] && !t.broken)
    && (!Between(t) ==> t.partial != [] && t.partial[0] == SYNC)
    && (!Between(t) && !t.broken ==> t.partial == t.log.tx.cur[..t.log.tx.pos])
  }

  ghost predicate Counted(t: Line) {
    var n := |t.log.built|;
    && |t.whole| == |t.torn| == |t.log.copies| == n
    && OwnFrames(t.items) == Heard(DulledAll(t.log.built), t.whole)
    && (forall i :: 0 <= i < n - 1 ==> t.whole[i] + t.torn[i] == t.log.copies[i])
    && (n > 0 ==> t.whole[n - 1] + t.torn[n - 1] + (if t.log.tx.Drained() then 0 else 1) == t.log.copies[n - 1])
    && (AllWhole(t.items) ==> forall i :: 0 <= i < n ==> t.torn[i] == 0)
  }

  ghost predicate LineInv(t: Line) {
    Inv(t.log) && Ended(t.log) && Cut(t) && Counted(t)
  }

  /** What a sender's step does to the frame in the buffer. */
  lemma Emits(l: Log, e: Outbound.Event) returns (start: bool)
    requires Inv(l) && Ended(l) && Outbound.Admissible(e)
    ensures var m := SenderRuns.Step(l, e);
            var from := if start then 0 else l.tx.pos;
            && from <= m.tx.pos <= |m.tx.cur| && Emitted(l, e) == m.tx.cur[from..m.tx.pos]
            && (start ==> l.tx.Drained() && m.built != [])
            && (if |m.built| > |l.built| then start && |m.built| == |l.built| + 1 && m.built[..|l.built|] == l.built && m.copies == l.copies + [1]
                else m.built == l.built && m.tx.cur == l.tx.cur
                     && m.copies == if start && l.copies != [] then Bumped(l.copies) else l.copies)
            && (start ==> |m.tx.cur| > 0 && m.tx.cur[0] == SYNC)
  {
    hide Body, IdOf, Ended;
    InvStep(l, e);
    if e.Service? {
      var move := Outbound.Decide(l.tx, e.ticked);
      start := move.Retry? || Outbound.MayBuild(Outbound.Decided(l.tx, move), e.ready);
    } else {
      start := false;
      assert l.tx.cur[l.tx.pos..l.tx.pos] == [];
    }
  }

  lemma LineInvStep(t: Line, e: Event)
    requires LineInv(t) && Admissible(e)
    ensures LineInv(Step(t, e))
  {
    match e
    case AckOut(id) => AckStep(t, id);
    case Sender(s) => SenderStep(t, s);
  }

  lemma AckCarries(id: byte)
    ensures Carries(Outbound.AckImage(id), Frame(ACK, [Low7(id)]))
    ensures Outbound.AckImage(id)[0] == SYNC
  {
    hide Xor;
    RawCarriesDulled(Frame(ACK, [id]));
    assert Masked([id]) == [Low7(id)];
  }

  lemma AckStep(t: Line, id: byte)
    requires LineInv(t)
    ensures LineInv(Step(t, AckOut(id)))
  {
    hide Inv, Ended, Body, IdOf, Heard, Bytes, OwnFrames, AllHonest, AllWhole, Honest, Outbound.AckImage;
    var w := Outbound.AckImage(id);
    if Between(t) {
      var x := Whole(false, Frame(ACK, [Low7(id)]), w);
      AckIsHonest(id);
      ItemsMore(t.items, x);
      Assoc(Bytes(t.items), w, []);
    } else {
      AckCarries(id);
      Assoc(Bytes(t.items), t.partial, w);
    }
  }

  lemma AckIsHonest(id: byte)
    ensures Honest(Whole(false, Frame(ACK, [Low7(id)]), Outbound.AckImage(id)))
  {
    hide Carries;
    AckCarries(id);
  }

  function Open(t: Line): nat {
    if t.log.tx.Drained() && t.partial == [] then 0 else 1
  }

  /** Like the invariant, but the transmission under way may just have been completed. */
  ghost predicate Sending(t: Line) {
    var n := |t.log.built|;
    && Inv(t.log) && Ended(t.log)
    && t.wire == Bytes(t.items) + t.partial
    && AllHonest(t.items)
    && t.log.tx.pos <= |t.log.tx.cur|
    && (t.partial == [] ==> Between(t) && !t.broken)
    && (t.partial != [] ==> t.partial[0] == SYNC && t.log.tx.pos > 0 && n > 0)
    && (t.partial != [] && !t.broken ==> t.partial == t.log.tx.cur[..t.log.tx.pos])
    && |t.whole| == |t.torn| == |t.log.copies| == n
    && OwnFrames(t.items) == Heard(DulledAll(t.log.built), t.whole)
    && (forall i :: 0 <= i < n - 1 ==> t.whole[i] + t.torn[i] == t.log.copies[i])
    && (n > 0 ==> t.whole[n - 1] + t.torn[n - 1] + Open(t) == t.log.copies[n - 1])
    && (AllWhole(t.items) ==> forall i :: 0 <= i < n ==> t.torn[i] == 0)
  }

  lemma SenderStep(t: Line, e: Outbound.Event)
    requires LineInv(t) && Outbound.Admissible(e)
    ensures LineInv(Step(t, Sender(e)))
  {
    hide Inv, Ended, SenderRuns.Step, Emitted, Heard, Honest;
    PosInside(t.log);
    SentKeeps(t, e);
    var u := Sent(t, e);
    if u.log.tx.Drained() && u.partial != [] {
      FinishedKeeps(u);
    } else {
      NotFinished(u);
    }
  }

  lemma NotFinished(t: Line)
    requires Sending(t) && !(t.log.tx.Drained() && t.partial != [])
    ensures LineInv(t)
  {
    hide Inv, Ended, Heard, Honest;
  }

  lemma FinishedKeeps(t: Line)
    requires Sending(t) && t.log.tx.Drained() && t.partial != []
    ensures LineInv(Finished(t))
  {
    hide Inv, Ended, Heard, Body, IdOf, Carries, KnownType, Dulled, Bytes, OwnFrames, AllHonest, AllWhole;
    var n := |t.log.built|;
    var x := if t.broken then Torn(t.partial)
             else Whole(true, WithID(IdOf(n - 1), Dulled(t.log.built[n - 1])), t.partial);
    if !t.broken {
      NewestWhole(t.log, t.partial);
      HeardAgain(DulledAll(t.log.built), t.whole);
    }
    ItemsMore(t.items, x);
    Assoc(Bytes(t.items), t.partial, []);
  }

  /** What went out in one piece spells the newest frame, seven-bit. */
  lemma NewestWhole(l: Log, bytes: seq<byte>)
    requires Inv(l) && l.built != [] && bytes == l.tx.cur[..|l.tx.cur|]
    ensures var g := WithID(IdOf(|l.built| - 1), Dulled(l.built[|l.built| - 1]));
            Carries(bytes, g) && KnownType(g.typ) && ReliableC64(g.typ) && bytes[0] == SYNC
  {
    hide Xor, IdOf;
    var i, f := |l.built| - 1, l.built[|l.built| - 1];
    assert bytes == Image(i, f);
    ReliableIsKnown(f.typ);
    RawCarriesDulled(WithID(IdOf(i), f));
    assert Masked([IdOf(i)] + f.payload) == [IdOf(i)] + Masked(f.payload);
  }

  lemma ReliableIsKnown(t: byte)
    requires ReliableC64(t)
    ensures KnownType(t) && t < 0x80 && t != ACK
  {}

  lemma SentKeeps(t: Line, e: Outbound.Event)
    requires LineInv(t) && Outbound.Admissible(e)
    ensures Sending(Sent(t, e))
  {
    hide Inv, Ended, SenderRuns.Step, Emitted, Heard, Dulled, Bytes, OwnFrames, AllHonest, AllWhole;
    InvStep(t.log, e);
    PosInside(t.log);
    var start := Emits(t.log, e);
    var u, l := Sent(t, e), t.log;
    Assoc(Bytes(t.items), t.partial, Emitted(l, e));
    if |u.log.built| > |l.built| {
      HeardNext(DulledAll(l.built), t.whole, Dulled(u.log.built[|l.built|]));
      DulledNext(l.built, u.log.built);
    }
    PartialGrows(t, u, start);
    CountsGrow(t, u, start);
  }

  lemma DulledNext(before: seq<Frame>, after: seq<Frame>)
    requires |after| == |before| + 1 && after[..|before|] == before
    ensures DulledAll(after) == DulledAll(before) + [Dulled(after[|before|])]
  {
    hide Dulled;
    assert forall i :: 0 <= i < |before| ==> after[i] == after[..|before|][i];
  }

  lemma PosInside(l: Log)
    requires Inv(l)
    ensures l.tx.pos <= |l.tx.cur| && (l.built == [] ==> l.tx.cur == [])
  {}

  lemma PartialGrows(t: Line, u: Line, start: bool)
    requires LineInv(t) && Inv(u.log)
    requires var l, m := t.log, u.log; var from := if start then 0 else l.tx.pos;
             && from <= m.tx.pos <= |m.tx.cur| && u.partial == t.partial + m.tx.cur[from..m.tx.pos]
             && (start ==> l.tx.Drained() && |m.tx.cur| > 0 && m.tx.cur[0] == SYNC)
             && (!start ==> m.tx.cur == l.tx.cur) && u.broken == t.broken
    ensures (u.partial == [] ==> Between(u) && !u.broken)
    ensures u.partial != [] ==> u.partial[0] == SYNC && u.log.tx.pos > 0 && u.log.built != []
    ensures u.partial != [] && !u.broken ==> u.partial == u.log.tx.cur[..u.log.tx.pos]
  {
    hide Body, IdOf, Ended, Heard, Honest, Counted;
    var l, m := t.log, u.log;
    if start || Between(t) {
      assert u.partial == m.tx.cur[(if start then 0 else l.tx.pos)..m.tx.pos];
      if !start && !l.tx.Drained() { FirstByte(l); }
    } else {
      assert l.tx.cur[..m.tx.pos] == l.tx.cur[..l.tx.pos] + l.tx.cur[l.tx.pos..m.tx.pos];
    }
  }

  lemma FirstByte(l: Log)
    requires Inv(l) && l.tx.cur != []
    ensures l.tx.cur[0] == SYNC
  {
    hide Body;
  }

  lemma CountsGrow(t: Line, u: Line, start: bool)
    requires LineInv(t) && Inv(u.log)
    requires var l, m := t.log, u.log;
             && (start ==> l.tx.Drained() && m.built != [] && |m.tx.cur| > 0)
             && (if |m.built| > |l.built| then start && |m.built| == |l.built| + 1 && m.copies == l.copies + [1]
                     && u.whole == t.whole + [0] && u.torn == t.torn + [0]
                 else m.built == l.built && u.whole == t.whole && u.torn == t.torn && m.tx.cur == l.tx.cur
                      && m.copies == if start && l.copies != [] then Bumped(l.copies) else l.copies)
             && m.tx.pos <= |m.tx.cur| && (!start ==> l.tx.pos <= m.tx.pos)
             && u.items == t.items
    requires u.partial == [] ==> Between(u)
    requires u.partial != [] ==> u.log.tx.pos > 0
    requires !start && t.log.tx.Drained() ==> u.partial == []
    requires start && u.log.tx.Drained() ==> u.partial != []
    requires !start && !t.log.tx.Drained() && u.log.tx.Drained() ==> u.partial != []
    ensures |u.whole| == |u.torn| == |u.log.copies| == |u.log.built|
    ensures var n := |u.log.built|;
            && (forall i :: 0 <= i < n - 1 ==> u.whole[i] + u.torn[i] == u.log.copies[i])
            && (n > 0 ==> u.whole[n - 1] + u.torn[n - 1] + Open(u) == u.log.copies[n - 1])
            && (AllWhole(u.items) ==> forall i :: 0 <= i < n ==> u.torn[i] == 0)
  {
    hide Body, IdOf, Ended, Heard, Honest, Cut;
  }

  predicate AllAdmissible(events: seq<Event>) {
    forall i :: 0 <= i < |events| ==> Admissible(events[i])
  }

  function Run(events: seq<Event>): (t: Line)
    requires AllAdmissible(events)
    ensures LineInv(t)
  {
    if events == [] then
      QuietHolds();
      QUIET
    else
      var init := Run(events[..|events| - 1]);
      var e := events[|events| - 1];
      LineInvStep(init, e);
      Step(init, e)
  }

  lemma QuietHolds()
    ensures LineInv(QUIET)
  {
    assert DulledAll([]) == [];
  }

  /** Acknowledgments go out only between transmissions. */
  predicate Tidy(events: seq<Event>)
    requires AllAdmissible(events)
  {
    events != [] ==>
      var init := events[..|events| - 1];
      Tidy(init) && (events[|events| - 1].AckOut? ==> Between(Run(init)))
  }

  lemma {:induction false} TidyIsWhole(events: seq<Event>)
    requires AllAdmissible(events) && Tidy(events)
    ensures !Run(events).broken && AllWhole(Run(events).items)
  {
    hide LineInv, SenderRuns.Step, Emitted;
    if events != [] {
      TidyIsWhole(events[..|events| - 1]);
    }
  }

  // ---- the imperative sender, and all it puts on the line ----

  /** The real buffer and its registers, driven through any sequence of events: they are those of the run. */
  method Drive(tx: TxBuf, events: seq<Event>) returns (wire: seq<byte>)
    requires Outbound.Ready(tx) && Outbound.Regs(tx) == POWER_ON.tx && AllAdmissible(events)
    modifies tx, tx.buf
    ensures Outbound.Ready(tx) && Outbound.Regs(tx) == Run(events).log.tx && wire == Run(events).wire
  {
    hide Step, Inv, Ended, Cut, Counted, Outbound.Regs;
    wire := [];
    assert events[..0] == [];
    for i := 0 to |events|
      invariant Outbound.Ready(tx) && Outbound.Regs(tx) == Run(events[..i]).log.tx && wire == Run(events[..i]).wire
    {
      assert events[..i + 1][..i] == events[..i];
      var sent := Perform(tx, events[i], Run(events[..i]));
      wire := wire + sent;
    }
    assert events[..|events|] == events;
  }

  /** One event at the real buffer. */
  method Perform(tx: TxBuf, e: Event, ghost t: Line) returns (sent: seq<byte>)
    requires Outbound.Ready(tx) && Inv(t.log) && Outbound.Regs(tx) == t.log.tx && Admissible(e)
    modifies tx, tx.buf
    ensures Outbound.Ready(tx) && Outbound.Regs(tx) == Step(t, e).log.tx && t.wire + sent == Step(t, e).wire
  {
    hide Inv, SenderRuns.Step, Emitted, Outbound.AckImage, Outbound.Regs;
    PosInside(t.log);
    match e
    case AckOut(id) =>
      sent := Outbound.SendAck(id);
    case Sender(s) =>
      sent := SenderRuns.Perform(tx, s, t.log);
  }

  // ---- what the bridge decodes ----

  /** The decoder gets past these bytes without a frame, to whatever starts with a sync byte. */
  ghost predicate Skippable(b: seq<byte>) {
    forall rest: seq<byte> :: rest == [] || rest[0] == SYNC ==> DecodeAll(b + rest) == DecodeAll(rest)
  }

  ghost predicate TornSkippable(items: seq<Item>) {
    forall i :: 0 <= i < |items| && items[i].Torn? ==> Skippable(items[i].bytes)
  }

  lemma {:induction false} DecodeItems(items: seq<Item>, rest: seq<byte>)
    requires AllHonest(items) && TornSkippable(items) && (rest == [] || rest[0] == SYNC)
    ensures DecodeAll(Bytes(items) + rest) == WholeFrames(items) + DecodeAll(rest)
  {
    hide DecodeAll, Skippable, Carries, KnownType;
    if items == [] {
      assert Bytes(items) + rest == rest;
    } else {
      var init, x := items[..|items| - 1], items[|items| - 1];
      Assoc(Bytes(init), x.bytes, rest);
      assert Honest(x);
      DecodeItems(init, x.bytes + rest);
      if x.Whole? {
        GoStreams.DecodeOne(Intact(x.frame, x.bytes), rest);
      } else {
        Skipped(x.bytes, rest);
      }
    }
  }

  lemma Skipped(b: seq<byte>, rest: seq<byte>)
    requires Skippable(b) && (rest == [] || rest[0] == SYNC)
    ensures DecodeAll(b + rest) == DecodeAll(rest)
  {
    hide DecodeAll;
  }

  /** An unfinished frame yields nothing. */
  lemma PrefixIsSilent(w: seq<byte>, f: Frame, k: nat)
    requires Carries(w, f) && KnownType(f.typ) && k < |w| && w[0] == SYNC
    ensures DecodeAll(w[..k]) == []
  {
    hide Xor;
    IntactShape(w, f);
    var s := w[..k];
    if k > 0 {
      assert Hunt(s) == ReadType(s[1..]);
      if k > 1 {
        assert s[1..][1..] == s[2..];
        assert ReadType(s[1..]) == ReadBody(f.typ, s[2..]);
      }
    }
  }

  lemma PartialIsSilent(t: Line)
    requires LineInv(t) && !t.broken
    ensures DecodeAll(t.partial) == []
  {
    hide Ended, Counted, DecodeAll, Body, IdOf, Carries;
    if Between(t) {
      NothingDecoded();
    } else {
      var cur := t.log.tx.cur;
      assert cur[..|cur|] == cur;
      NewestWhole(t.log, cur);
      PrefixIsSilent(cur, WithID(IdOf(|t.log.built| - 1), Dulled(t.log.built[|t.log.built| - 1])), t.log.tx.pos);
    }
  }

  lemma NothingDecoded()
    ensures DecodeAll([]) == []
  {}

  /**
   * The bridge decodes exactly what went out whole, in order: the sender's frames and the
   * acknowledgments.  A transmission with an acknowledgment in its middle counts as lost; all that
   * is asked of its bytes is that the decoder gets past them.
   */
  lemma BridgeHears(t: Line)
    requires LineInv(t) && TornSkippable(t.items) && !t.broken
    ensures DecodeAll(t.wire) == WholeFrames(t.items)
    ensures OwnFrames(t.items) == Heard(DulledAll(t.log.built), t.whole)
  {
    hide DecodeAll, WholeFrames, OwnFrames, Bytes, Heard, Skippable, TornSkippable, Inv, Ended, AllHonest;
    PartialIsSilent(t);
    DecodeItems(t.items, t.partial);
    assert WholeFrames(t.items) + [] == WholeFrames(t.items);
  }

  /** In a run whose acknowledgments keep out of the transmissions, these are all of them. */
  lemma TidyHears(events: seq<Event>)
    requires AllAdmissible(events) && Tidy(events)
    ensures var t := Run(events);
            && DecodeAll(t.wire) == WholeFrames(t.items)
            && OwnFrames(t.items) == Heard(DulledAll(t.log.built), t.whole)
            && forall i :: 0 <= i < |t.log.built| ==>
                 t.whole[i] == t.log.copies[i] - if i == |t.log.built| - 1 && !t.log.tx.Drained() then 1 else 0
  {
    hide DecodeAll, WholeFrames, OwnFrames, Heard, Inv, Ended, Bytes, Run, Tidy, Skippable;
    TidyIsWhole(events);
    BridgeHears(Run(events));
  }

  /**
   * When a transmission with an acknowledgment after its first three bytes is skipped: the decoder
   * reads as many bytes as the length says, the checksum does not match what comes next, and none of
   * the five bytes left over looks like a sync.
   */
  lemma InterruptedIsSkippable(w: seq<byte>, typ: byte, n: nat, p: nat, a: seq<byte>)
    requires Shaped(w, typ, n) && KnownType(typ) && 3 <= p < |w| && |a| == 5
    requires var s := w[..p] + a + w[p..];
             && Low7(s[n + 3]) != Xor(Masked(s[..n + 4])[1..n + 3]) && s[n + 3] != SYNC
             && forall i :: n + 4 <= i < |s| ==> !SyncLike(s[i])
    ensures Skippable(w[..p] + a + w[p..])
  {
    hide Xor, KnownType, Hunt, ReadType, DecodeAll;
    var s := w[..p] + a + w[p..];
    var head, tail := s[..n + 4], s[n + 4..];
    assert s == head + tail && Shaped(head, typ, n);
    forall rest: seq<byte> | rest == [] || rest[0] == SYNC ensures DecodeAll(s + rest) == DecodeAll(rest) {
      Assoc(head, tail, rest);
      GoStreams.HuntShaped(head, typ, n, tail + rest);
      GoStreams.NoiseSkipped(tail, rest);
      GoStreams.SameHunt(s + rest, rest);
    }
  }
}
