/** Seven-bit transport ids: the two counters, the two half-window tests, and the sequence numbers behind them. */
module TransportIds {
  import opened Wire

  /** The id that goes with the s-th reliable frame of a direction, counting from 0. */
  function IdOf(s: nat): (id: byte)
    ensures 1 <= id <= 0x7F
  {
    1 + s % 127
  }

  // ---- the bridge ----

  datatype Alloc = Alloc(id: byte, next: byte)

  /** A byte counter that also repairs an unset or out-of-range value. */
  function AllocID(counter: byte): Alloc {
    var id := if counter == 0 || counter > 0x7F then 1 else counter;
    var next := (id + 1) % 0x100;
    Alloc(id, if next == 0 || next > 0x7F then 1 else next)
  }

  predicate GoAhead(id: byte, last: byte) {
    if id == last then false else
    var diff := id as int - last as int;
    var wrapped := if diff < 0 then diff + 127 else diff;
    0 < wrapped <= 63
  }

  // ---- the C64 ----

  function NextTxId(id: byte): byte {
    var next := (id + 1) % 0x100;
    if next < 0x80 then next else 1
  }

  /** CLC, ADC: eight-bit sum. */
  function Adc(a: byte, b: byte): byte { (a + b) % 0x100 }

  /** SEC, SBC: eight-bit difference. */
  function Sbc(a: byte, b: byte): byte { (a - b) % 0x100 }

  predicate C64Ahead(id: byte, last: byte) {
    if id == last then false
    else if id >= last then Sbc(id, last) < 64
    else Sbc(Adc(id, 127), last) < 64
  }

  /** Whether a reliable frame with this id is taken as new; 0 marks "nothing accepted yet". */
  predicate Fresh(id: byte, last: byte) {
    last == 0 || C64Ahead(id, last)
  }

  // ---- what the ids stand for ----

  lemma CountersTrack(s: nat)
    ensures AllocID(IdOf(s)) == Alloc(IdOf(s), IdOf(s + 1))
    ensures NextTxId(IdOf(s)) == IdOf(s + 1)
    ensures AllocID(0) == Alloc(IdOf(0), IdOf(1))
  {
    NextResidue(s);
  }

  lemma NextResidue(s: nat)
    ensures (s + 1) % 127 == if s % 127 == 126 then 0 else s % 127 + 1
  {}

  /** Where the two tests differ on seven-bit ids: only on id 0 after 127, and 0 is never sent. */
  lemma SameTest(id: byte, last: byte)
    requires id < 0x80 && last < 0x80
    ensures GoAhead(id, last) == C64Ahead(id, last) <==> !(id == 0 && last == 0x7F)
  {}

  /** Exactly which sequence numbers pass the half-window test. */
  lemma AheadExactly(s: nat, newest: nat)
    ensures C64Ahead(IdOf(s), IdOf(newest)) <==> 1 <= (s - newest) % 127 <= 63
  {
    ModDifference(s, newest);
    AheadResidues(s % 127, newest % 127);
  }

  lemma AheadResidues(a: nat, b: nat)
    requires a < 127 && b < 127
    ensures C64Ahead(1 + a, 1 + b) <==> 1 <= (a - b) % 127 <= 63
  {
    assert (a - b) % 127 == if a >= b then a - b else a - b + 127;
  }

  lemma ModDifference(s: nat, t: nat)
    ensures (s - t) % 127 == (s % 127 - t % 127) % 127
  {
    var k := s / 127 - t / 127;
    assert s - t == 127 * k + (s % 127 - t % 127);
    ModShift(s % 127 - t % 127, k);
  }

  lemma {:induction false} ModShift(x: int, k: int)
    ensures (127 * k + x) % 127 == x % 127
    decreases if k < 0 then -k else k
  {
    if k > 0 {
      ModShift(x, k - 1);
      OneCycle(127 * (k - 1) + x);
    } else if k < 0 {
      ModShift(x, k + 1);
      OneCycle(127 * k + x);
    }
  }

  lemma OneCycle(x: int)
    ensures (x + 127) % 127 == x % 127
  {
    var q, r := x / 127, x % 127;
    assert x + 127 == 127 * (q + 1) + r;
  }

  /** Within 63 of the newest accepted frame the ids decide exactly which of two frames is later. */
  lemma WindowDecides(s: nat, newest: nat)
    requires newest - 63 <= s <= newest + 63
    ensures C64Ahead(IdOf(s), IdOf(newest)) <==> s > newest
    ensures GoAhead(IdOf(s), IdOf(newest)) <==> s > newest
  {
    AheadExactly(s, newest);
    SameTest(IdOf(s), IdOf(newest));
  }

  /** Ids repeat only a whole cycle apart. */
  lemma SameId(s: nat, t: nat)
    ensures IdOf(s) == IdOf(t) <==> (s - t) % 127 == 0
  {
    ModDifference(s, t);
  }
}
