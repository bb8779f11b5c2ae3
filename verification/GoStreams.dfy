/** What repeated decoding on the bridge makes of a stream, and why no frame is invented. */
module GoStreams {
  import opened Wire
  import opened Frames
  import opened Streams
  import opened GoCodec

  /**
   * The streams the bridge resynchronizes on.  Bit 7 of any byte is free.  The one place where it
   * counts: a damaged frame whose raw checksum byte reads exactly $FE is taken for the next sync, so
   * what follows must be the end, a frame whose sync byte reads exactly $FE as well, or noise that is
   * no known type and is not followed by a frame at once.
   */
  ghost predicate GoStream(segs: seq<Segment>) {
    && (forall seg :: seg in segs ==> Plausible(seg))
    && (forall seg :: seg in segs && !seg.Noise? ==> KnownType(seg.frame.typ))
    && (forall i :: 0 <= i < |segs| - 1 && LooksLikeSync(segs[i]) ==> SafeAfter(segs, i))
  }

  /** What comes after the i-th segment survives if that segment's last byte is taken for a sync. */
  predicate SafeAfter(segs: seq<Segment>, i: nat)
    requires i + 1 < |segs|
  {
    StartsWithSync(segs[i + 1]) || (StrayType(segs[i + 1]) && (i + 2 < |segs| ==> segs[i + 2].Noise?))
  }

  /** A byte of noise that is not taken for a type either. */
  predicate StrayType(seg: Segment) {
    seg.Noise? && !SyncLike(seg.b) && !KnownType(Low7(seg.b))
  }

  predicate LooksLikeSync(seg: Segment) {
    seg.Damaged? && seg.wire != [] && seg.wire[|seg.wire| - 1] == SYNC
  }

  predicate StartsWithSync(seg: Segment) {
    Bytes(seg) != [] && Bytes(seg)[0] == SYNC
  }

  /** What the decoder does after reading a sync-like byte at place y, in terms of places in s. */
  lemma ReadTypeAt(s: seq<byte>, y: nat, n: nat)
    requires y + n + 4 <= |s| && s[y + 1] != SYNC && Low7(s[y + 2]) == n
    requires KnownType(Low7(s[y + 1]))
    ensures var head, rest := s[y + 1..y + 3 + n], s[y + n + 4..];
            ReadType(s[y + 1..]) ==
            if Low7(s[y + 3 + n]) == Xor(Masked(head)) then Got(Frame(Low7(s[y + 1]), Masked(head[2..])), rest)
            else if s[y + 3 + n] == SYNC then ReadType(rest)
            else Hunt(rest)
  {
    hide Xor, KnownType;
    var t, u := s[y + 1..], s[y + 3..];
    var typ, head := Low7(s[y + 1]), s[y + 1..y + 3 + n];
    assert t[1..] == s[y + 2..] && t[1..][1..] == u;
    assert u[n] == s[y + 3 + n] && u[n + 1..] == s[y + n + 4..];
    assert u[..n] == head[2..];
    assert [typ, n] + Masked(head[2..]) == Masked(head);
  }

  lemma HuntShaped(w: seq<byte>, typ: byte, n: nat, rest: seq<byte>)
    requires Shaped(w, typ, n) && KnownType(typ)
    ensures Hunt(w + rest) ==
            if Low7(w[n + 3]) == Xor(Masked(w)[1..n + 3]) then Got(Frame(typ, Masked(w)[3..n + 3]), rest)
            else if w[n + 3] == SYNC then ReadType(rest)
            else Hunt(rest)
  {
    hide Xor;
    var s := w + rest;
    ReadTypeAt(s, 0, n);
    assert s[n + 4..] == rest;
    assert Masked(s[1..n + 3]) == Masked(w)[1..n + 3];
    assert Masked(s[1..n + 3][2..]) == Masked(w)[3..n + 3];
  }

  lemma {:induction false} DecodeAllRecovers(segs: seq<Segment>)
    requires GoStream(segs)
    ensures DecodeAll(Flat(segs)) == IntactFrames(segs)
  {
    if segs != [] {
      var seg, tail := segs[0], segs[1..];
      assert seg in segs;
      TailStream(segs);
      DecodeAllRecovers(tail);
      if LooksLikeSync(seg) {
        SyncAhead(segs);
      }
      DecodeOne(seg, Flat(tail));
    }
  }

  lemma TailStream(segs: seq<Segment>)
    requires GoStream(segs) && segs != []
    ensures GoStream(segs[1..])
  {
    hide Plausible, KnownType, LooksLikeSync, StartsWithSync, StrayType;
    var tail := segs[1..];
    forall i | 0 <= i < |tail| - 1 && LooksLikeSync(tail[i]) ensures SafeAfter(tail, i) {
      assert tail[i] == segs[i + 1];
      assert SafeAfter(segs, i + 1);
    }
  }

  lemma HuntNoise(b: byte, rest: seq<byte>)
    requires !SyncLike(b)
    ensures Hunt([b] + rest) == Hunt(rest)
  {
    assert ([b] + rest)[1..] == rest;
  }

  /** One segment contributes its frame if intact and nothing otherwise. */
  lemma DecodeOne(seg: Segment, rest: seq<byte>)
    requires Plausible(seg) && (!seg.Noise? ==> KnownType(seg.frame.typ))
    requires LooksLikeSync(seg) ==> ReadType(rest) == Hunt(rest) || (ReadType(rest).Eof? && Hunt(rest).Eof?)
    ensures DecodeAll(Bytes(seg) + rest) == (if seg.Intact? then [seg.frame] else []) + DecodeAll(rest)
  {
    hide Xor, KnownType, ReadType, Hunt;
    match seg
    case Noise(b) =>
      HuntNoise(b, rest);
      SameHunt([b] + rest, rest);
    case Intact(f, w) =>
      IntactShape(w, f);
      HuntShaped(w, f.typ, |f.payload|, rest);
    case Damaged(f, w) =>
      DamagedShape(w, f);
      HuntShaped(w, f.typ, |f.payload|, rest);
      SameHunt(w + rest, rest);
  }

  /** The checksum byte taken for a sync costs nothing when a sync comes next. */
  lemma SyncAhead(segs: seq<Segment>)
    requires |segs| > 0 && GoStream(segs) && LooksLikeSync(segs[0])
    ensures var rest := Flat(segs[1..]);
            ReadType(rest) == Hunt(rest) || (ReadType(rest).Eof? && Hunt(rest).Eof?)
  {
    hide ReadBody, ReadType, Hunt, KnownType, Carries, Damages;
    if |segs| > 1 {
      assert SafeAfter(segs, 0);
      assert segs[1..][0] == segs[1];
      if StartsWithSync(segs[1]) {
        assert Flat(segs[1..])[0] == SYNC;
        SyncTwice(Flat(segs[1..]));
      } else if |segs| > 2 {
        assert segs[2] in segs;
        assert segs[1..][1..] == segs[2..] && segs[2..][0] == segs[2];
        StraySkipped(segs[1].b, segs[2].b, Flat(segs[2..][1..]));
        assert Flat(segs[1..]) == [segs[1].b] + ([segs[2].b] + Flat(segs[2..][1..]));
      } else {
        assert segs[1..][1..] == [];
        assert Flat(segs[1..]) == [segs[1].b];
        StrayAtEnd(segs[1].b);
      }
    } else {
      assert Flat(segs[1..]) == [];
      NothingToRead();
    }
  }

  lemma SyncTwice(s: seq<byte>)
    requires s != [] && s[0] == SYNC
    ensures ReadType(s) == Hunt(s)
  {}

  lemma NothingToRead()
    ensures ReadType([]).Eof? && Hunt([]).Eof?
  {}

  /** After a sync, a stray type and the byte behind it are thrown away. */
  lemma StraySkipped(a: byte, b: byte, rest: seq<byte>)
    requires !SyncLike(a) && !KnownType(Low7(a)) && !SyncLike(b)
    ensures ReadType([a] + ([b] + rest)) == Hunt([a] + ([b] + rest)) == Hunt(rest)
  {
    hide KnownType;
    var s := [a] + ([b] + rest);
    assert s[1..] == [b] + rest && ([b] + rest)[1..] == rest;
    HuntNoise(a, [b] + rest);
    HuntNoise(b, rest);
  }

  lemma StrayAtEnd(a: byte)
    requires !SyncLike(a)
    ensures ReadType([a]).Eof? && Hunt([a]).Eof?
  {
    assert [a][1..] == [];
  }

  lemma SameHunt(s: seq<byte>, t: seq<byte>)
    requires Hunt(s) == Hunt(t) || (Hunt(s).Eof? && Hunt(t).Eof?)
    ensures DecodeAll(s) == DecodeAll(t)
  {}

  // ---- soundness: whatever the input, a decoded frame was on the wire ----

  /** Frame d sits in s right after position i, which holds a sync-like byte, and nothing past it was consumed. */
  ghost predicate FoundAt(s: seq<byte>, d: Decoded, i: nat) {
    && d.Got?
    && Clean(d.frame) && KnownType(d.frame.typ)
    && var end := i + 4 + |d.frame.payload|;
    && end <= |s|
    && SyncLike(s[i])
    && Masked(s[i + 1..end]) == Body(d.frame)
    && d.rest == s[end..]
  }

  lemma {:induction false} DecodeSound(s: seq<byte>) returns (i: nat)
    requires Hunt(s).Got?
    ensures FoundAt(s, Hunt(s), i)
    decreases |s|, 1
  {
    if SyncLike(s[0]) {
      i := ReadTypeSound(s, 0);
    } else {
      var j := DecodeSound(s[1..]);
      i := Shifted(s, 1, Hunt(s), j);
    }
  }

  lemma {:induction false} ReadTypeSound(s: seq<byte>, y: nat) returns (i: nat)
    requires y < |s| && SyncLike(s[y]) && ReadType(s[y + 1..]).Got?
    ensures FoundAt(s, ReadType(s[y + 1..]), i)
    decreases |s| - y, 0
  {
    if s[y + 1..][0] == SYNC {
      assert s[y + 1..][1..] == s[y + 2..];
      i := ReadTypeSound(s, y + 1);
    } else {
      var t, n := s[y + 1..], Low7(s[y + 2]);
      assert t[1..] == s[y + 2..] && t[1..][1..] == s[y + 3..];
      if !KnownType(Low7(t[0])) {
        var j := DecodeSound(s[y + 3..]);
        i := Shifted(s, y + 3, Hunt(s[y + 3..]), j);
      } else {
        i := KnownTypeSound(s, y, n);
      }
    }
  }

  lemma {:induction false} KnownTypeSound(s: seq<byte>, y: nat, n: nat) returns (i: nat)
    requires y + n + 4 <= |s| && SyncLike(s[y]) && s[y + 1] != SYNC && Low7(s[y + 2]) == n
    requires KnownType(Low7(s[y + 1])) && ReadType(s[y + 1..]).Got?
    ensures FoundAt(s, ReadType(s[y + 1..]), i)
    decreases |s| - y - 1, 1
  {
    hide FoundAt, Hunt, ReadType, ReadBody, KnownType, Xor, Masked;
    var way := WayOn(s, y, n);
    match way
    case Finish =>
      i := y;
    case ReadNext =>
      i := ReadTypeSound(s, y + 3 + n);
    case HuntOn =>
      var j := DecodeSound(s[y + n + 4..]);
      i := Shifted(s, y + n + 4, Hunt(s[y + n + 4..]), j);
  }

  datatype Way = Finish | ReadNext | HuntOn

  lemma WayOn(s: seq<byte>, y: nat, n: nat) returns (way: Way)
    requires y + n + 4 <= |s| && SyncLike(s[y]) && s[y + 1] != SYNC && Low7(s[y + 2]) == n
    requires KnownType(Low7(s[y + 1]))
    ensures var d, rest := ReadType(s[y + 1..]), s[y + n + 4..];
            match way
            case Finish => FoundAt(s, d, y)
            case ReadNext => s[y + 3 + n] == SYNC && d == ReadType(rest)
            case HuntOn => d == Hunt(rest)
  {
    hide FoundAt, Hunt, ReadType, ReadBody, KnownType, Xor, Masked;
    ReadTypeAt(s, y, n);
    if Low7(s[y + 3 + n]) == Xor(Masked(s[y + 1..y + 3 + n])) {
      way := Finish;
      FrameSeen(s, y, n);
    } else if s[y + 3 + n] == SYNC {
      way := ReadNext;
    } else {
      way := HuntOn;
    }
  }

  lemma FrameSeen(s: seq<byte>, y: nat, n: nat)
    requires y + n + 4 <= |s| && SyncLike(s[y]) && Low7(s[y + 2]) == n
    requires KnownType(Low7(s[y + 1]))
    requires Low7(s[y + 3 + n]) == Xor(Masked(s[y + 1..y + 3 + n]))
    ensures FoundAt(s, Got(Frame(Low7(s[y + 1]), Masked(s[y + 1..y + 3 + n][2..])), s[y + n + 4..]), y)
  {
    hide Xor, KnownType;
    var head := s[y + 1..y + 3 + n];
    BodySeen(head, s[y + 3 + n]);
    assert s[y + 1..y + 4 + n] == head + [s[y + 3 + n]];
  }

  lemma BodySeen(head: seq<byte>, c: byte)
    requires |head| >= 2 && Low7(head[1]) == |head| - 2 && Low7(c) == Xor(Masked(head))
    ensures var f := Frame(Low7(head[0]), Masked(head[2..]));
            Clean(f) && Masked(head + [c]) == Body(f)
  {
    hide Xor, Xor2;
    MaskedSevenBit(head[2..]);
    MaskedConcat(head, [c]);
    assert Masked(head) == [Low7(head[0]), |head| - 2] + Masked(head[2..]);
  }

  lemma Shifted(s: seq<byte>, k: nat, d: Decoded, j: nat) returns (i: nat)
    requires k <= |s| && FoundAt(s[k..], d, j)
    ensures FoundAt(s, d, i)
  {
    i := k + j;
    var end := j + 4 + |d.frame.payload|;
    assert s[k..][j + 1..end] == s[i + 1..k + end];
    assert s[k..][end..] == s[k + end..];
  }

  // ---- what the raw sync byte after a damaged frame is worth ----

  /**
   * After a damaged frame whose raw checksum byte reads $FE, the next frame is recovered exactly
   * when its own sync byte reads $FE too; with any other sync-like byte it is lost.
   */
  lemma SyncByteMatters(f: Frame, w: seq<byte>, g: Frame, v: seq<byte>)
    requires Damages(w, f) && KnownType(f.typ) && w[|w| - 1] == SYNC
    requires Carries(v, g) && KnownType(g.typ)
    ensures DecodeAll(w + v) == [g] <==> v[0] == SYNC
  {
    hide Xor, KnownType, Hunt, ReadType, ReadBody, DecodeAll, Damages, Carries;
    DamagedShape(w, f);
    IntactShape(v, g);
    HuntShaped(w, f.typ, |f.payload|, v);
    assert Hunt(w + v) == ReadType(v);
    if v[0] == SYNC {
      HuntShaped(v, g.typ, |g.payload|, []);
      WholeFrame(v, g);
      OnlyFrame(w + v, g);
    } else {
      SyncReadAsType(v);
      TooShort(v[2..], g);
      if DecodeAll(w + v) == [g] {
        FirstFrame(w + v, g);
      }
    }
  }

  /**
   * With noise in between that starts with no known type, the next frame is recovered exactly when
   * there are at least two bytes of it: the first is dropped as a type, the second as its length.
   */
  lemma NoiseAfterMatters(f: Frame, w: seq<byte>, gap: seq<byte>, g: Frame, v: seq<byte>)
    requires Damages(w, f) && KnownType(f.typ) && w[|w| - 1] == SYNC
    requires Carries(v, g) && KnownType(g.typ)
    requires gap != [] && !KnownType(Low7(gap[0])) && forall i :: 0 <= i < |gap| ==> !SyncLike(gap[i])
    ensures DecodeAll(w + (gap + v)) == [g] <==> |gap| >= 2
  {
    hide Xor, KnownType, Hunt, ReadType, ReadBody, DecodeAll, Damages, Carries;
    var s := w + (gap + v);
    DamagedShape(w, f);
    HuntShaped(w, f.typ, |f.payload|, gap + v);
    assert Hunt(s) == ReadType(gap + v);
    if |gap| >= 2 {
      ReadAcross(gap, v);
      WholeHunt(v, g);
      OnlyFrame(s, g);
    } else {
      assert gap + v == [gap[0]] + v;
      IntactShape(v, g);
      StrayEatsSync(gap[0], v);
      TooLate(s, v, g);
    }
  }

  lemma TooLate(s: seq<byte>, v: seq<byte>, g: Frame)
    requires |v| == |g.payload| + 4 && Hunt(s) == Hunt(v[1..])
    ensures DecodeAll(s) != [g]
  {
    hide Hunt, DecodeAll;
    TooShort(v[1..], g);
    if DecodeAll(s) == [g] {
      FirstFrame(s, g);
    }
  }

  lemma ReadAcross(gap: seq<byte>, v: seq<byte>)
    requires |gap| >= 2 && !KnownType(Low7(gap[0])) && forall i :: 0 <= i < |gap| ==> !SyncLike(gap[i])
    ensures ReadType(gap + v) == Hunt(v)
  {
    hide KnownType, Hunt, ReadType;
    assert gap + v == [gap[0]] + ([gap[1]] + (gap[2..] + v));
    StraySkipped(gap[0], gap[1], gap[2..] + v);
    NoiseSkipped(gap[2..], v);
  }

  lemma WholeHunt(v: seq<byte>, g: Frame)
    requires Carries(v, g) && KnownType(g.typ)
    ensures Hunt(v) == Got(g, [])
  {
    hide Xor, KnownType, Hunt;
    IntactShape(v, g);
    HuntShaped(v, g.typ, |g.payload|, []);
    assert v + [] == v;
  }

  lemma {:induction false} NoiseSkipped(gap: seq<byte>, v: seq<byte>)
    requires forall i :: 0 <= i < |gap| ==> !SyncLike(gap[i])
    ensures Hunt(gap + v) == Hunt(v)
  {
    hide Hunt;
    if gap == [] {
      assert gap + v == v;
    } else {
      assert gap + v == [gap[0]] + (gap[1..] + v);
      HuntNoise(gap[0], gap[1..] + v);
      NoiseSkipped(gap[1..], v);
    }
  }

  lemma StrayEatsSync(a: byte, v: seq<byte>)
    requires !SyncLike(a) && !KnownType(Low7(a)) && v != []
    ensures ReadType([a] + v) == Hunt(v[1..])
  {
    hide KnownType, Hunt, ReadType, ReadBody;
    var s := [a] + v;
    assert s[1..] == v && s[0] == a;
    TypeRead(s);
    UnknownRead(Low7(a), v);
  }

  lemma TypeRead(s: seq<byte>)
    requires s != [] && s[0] != SYNC
    ensures ReadType(s) == ReadBody(Low7(s[0]), s[1..])
  {
    hide ReadBody;
  }

  lemma UnknownRead(typ: byte, s: seq<byte>)
    requires !KnownType(typ) && s != []
    ensures ReadBody(typ, s) == Hunt(s[1..])
  {
    hide Hunt, KnownType, Xor, ReadType;
  }

  lemma WholeFrame(v: seq<byte>, g: Frame)
    requires v != [] && v[0] == SYNC && Hunt(v + []) == Got(g, [])
    ensures ReadType(v) == Got(g, [])
  {
    assert v + [] == v;
    assert Hunt(v) == ReadType(v[1..]) == ReadType(v);
  }

  lemma OnlyFrame(s: seq<byte>, g: Frame)
    requires Hunt(s) == Got(g, [])
    ensures DecodeAll(s) == [g]
  {
    assert DecodeAll([]) == [];
  }

  lemma FirstFrame(s: seq<byte>, g: Frame)
    requires DecodeAll(s) == [g]
    ensures Hunt(s).Got? && Hunt(s).frame == g
  {
    assert [g][0] == g;
  }

  /** A sync-like byte other than $FE is no known type: it and the next byte are thrown away. */
  lemma SyncReadAsType(v: seq<byte>)
    requires |v| >= 2 && SyncLike(v[0]) && v[0] != SYNC
    ensures ReadType(v) == Hunt(v[2..])
  {
    assert v[1..][1..] == v[2..];
  }

  lemma TooShort(s: seq<byte>, g: Frame)
    requires |s| < |g.payload| + 4
    ensures !(Hunt(s).Got? && Hunt(s).frame == g)
  {
    if Hunt(s).Got? {
      var i := DecodeSound(s);
    }
  }

  /** A frame cut short after k bytes is reported at the place where it breaks off. */
  lemma TruncationNoticed(w: seq<byte>, f: Frame, k: nat)
    requires Carries(w, f) && KnownType(f.typ) && k < |w|
    ensures Hunt(w[..k]) ==
            Eof(if k == 0 then AtSync else if k == 1 then AtSubtype else if k == 2 then AtLength
                else if k < |w| - 1 then AtPayload(k - 3) else AtChecksum)
  {
    hide Xor;
    IntactShape(w, f);
    var s := w[..k];
    if k > 0 {
      assert Hunt(s) == ReadType(s[1..]);
      if k > 1 {
        assert s[1..][1..] == s[2..];
        assert ReadType(s[1..]) == ReadBody(f.typ, s[2..]);
      }
    }
  }
}
