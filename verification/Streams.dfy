/** Streams of frames as the line may deliver them: noise, intact frames and damaged frames. */
module Streams {
  import opened Wire
  import opened Frames

  datatype Segment =
    | Noise(b: byte)
    | Intact(frame: Frame, wire: seq<byte>)
    | Damaged(frame: Frame, wire: seq<byte>)

  /** w spells f except that exactly one payload or checksum byte has wrong low bits. */
  ghost predicate Damages(w: seq<byte>, f: Frame) {
    && Clean(f)
    && |w| == |f.payload| + 4
    && exists k :: 3 <= k < |w| && DamagesAt(w, f, k)
  }

  ghost predicate DamagesAt(w: seq<byte>, f: Frame, k: nat)
    requires Clean(f) && |w| == |f.payload| + 4 && k < |w|
  {
    var good := [Low7(SYNC)] + Body(f);
    && Low7(w[k]) != good[k]
    && forall i :: 0 <= i < |w| && i != k ==> Low7(w[i]) == good[i]
  }

  ghost predicate Plausible(seg: Segment) {
    match seg
    case Noise(b) => !SyncLike(b)
    case Intact(f, w) => Carries(w, f)
    case Damaged(f, w) => Damages(w, f)
  }

  function Bytes(seg: Segment): seq<byte> {
    if seg.Noise? then [seg.b] else seg.wire
  }

  function Flat(segs: seq<Segment>): seq<byte> {
    if segs == [] then [] else Bytes(segs[0]) + Flat(segs[1..])
  }

  function IntactFrames(segs: seq<Segment>): seq<Frame> {
    if segs == [] then []
    else (if segs[0].Intact? then [segs[0].frame] else []) + IntactFrames(segs[1..])
  }

  /** The masked head (type, length, payload) and checksum of a frame-shaped string. */
  predicate Shaped(w: seq<byte>, typ: byte, n: nat) {
    |w| == n + 4 && SyncLike(w[0]) && Low7(w[1]) == typ && Low7(w[2]) == n
  }

  lemma ShapedParts(w: seq<byte>, typ: byte, n: nat)
    requires Shaped(w, typ, n)
    ensures w == (w[..3] + w[3..n + 3]) + [w[n + 3]]
    ensures Masked(w[3..n + 3]) == Masked(w)[3..n + 3]
    ensures [typ, n] + Masked(w[3..n + 3]) == Masked(w)[1..n + 3]
  {
    hide Masked;
    MaskedSlice(w, 3, n + 3);
    HeadSlice(Masked(w), typ, n);
    ThreeParts(w, n);
  }

  lemma ThreeParts(w: seq<byte>, n: nat)
    requires |w| == n + 4
    ensures w == (w[..3] + w[3..n + 3]) + [w[n + 3]]
  {}

  lemma HeadSlice(m: seq<byte>, typ: byte, n: nat)
    requires |m| == n + 4 && m[1] == typ && m[2] == n
    ensures [typ, n] + m[3..n + 3] == m[1..n + 3]
  {}

  lemma IntactShape(w: seq<byte>, f: Frame)
    requires Carries(w, f)
    ensures Shaped(w, f.typ, |f.payload|)
    ensures Masked(w)[3..|w| - 1] == f.payload
    ensures Low7(w[|w| - 1]) == Xor(Masked(w)[1..|w| - 1])
  {
    var m, n := Masked(w), |f.payload|;
    var head := [f.typ, n] + f.payload;
    assert m[0] == Low7(SYNC) && m[1] == f.typ && m[2] == n;
    assert m[3..3 + n] == f.payload;
    assert m[1..3 + n] == head;
  }

  lemma DamagedShape(w: seq<byte>, f: Frame)
    requires Damages(w, f)
    ensures Shaped(w, f.typ, |f.payload|)
    ensures Low7(w[|w| - 1]) != Xor(Masked(w)[1..|w| - 1])
  {
    hide Xor2, Xor;
    var k :| 3 <= k < |w| && DamagesAt(w, f, k);
    var m, n := Masked(w), |f.payload|;
    var head := [f.typ, n] + f.payload;
    var good := [Low7(SYNC)] + Body(f);
    assert forall i :: 1 <= i < 3 + n ==> good[i] == head[i - 1];
    assert m[0] == Low7(SYNC) && m[1] == f.typ && m[2] == n;
    var seen := m[1..3 + n];
    assert forall i :: 0 <= i < |seen| && i != k - 1 ==> seen[i] == head[i];
    if k == 3 + n {
      assert seen == head;
    } else {
      XorDetects(head, seen, k - 1);
    }
  }
}
