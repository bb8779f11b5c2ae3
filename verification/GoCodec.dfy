/** The bridge's frame decoder, and what repeated decoding recovers from a noisy line. */
module GoCodec {
  import opened Wire
  import opened Frames

  /** Where the input ran dry. */
  datatype Place = AtSync | AtSubtype | AtLength | AtPayload(index: nat) | AtChecksum

  datatype Decoded = Got(frame: Frame, rest: seq<byte>) | Eof(place: Place)

  // ---- specification: decoding as a function of the unread bytes ----

  function Hunt(s: seq<byte>): Decoded
    decreases |s|, 2
  {
    if s == [] then Eof(AtSync)
    else if SyncLike(s[0]) then ReadType(s[1..])
    else Hunt(s[1..])
  }

  function ReadType(s: seq<byte>): Decoded
    decreases |s|, 1
  {
    if s == [] then Eof(AtSubtype)
    else if s[0] == SYNC then ReadType(s[1..])
    else ReadBody(Low7(s[0]), s[1..])
  }

  function ReadBody(typ: byte, s: seq<byte>): Decoded
    decreases |s|, 0
  {
    if s == [] then Eof(AtLength) else
    var n := Low7(s[0]);
    var s' := s[1..];
    if !KnownType(typ) then Hunt(s')
    else if |s'| < n then Eof(AtPayload(|s'|))
    else if |s'| == n then Eof(AtChecksum)
    else
      var p := Masked(s'[..n]);
      if Low7(s'[n]) == Xor([typ, n] + p) then Got(Frame(typ, p), s'[n + 1..])
      else if s'[n] == SYNC then ReadType(s'[n + 1..])
      else Hunt(s'[n + 1..])
  }

  /** Decoding again and again until the input is used up. */
  function DecodeAll(s: seq<byte>): seq<Frame>
    decreases |s|
  {
    match Hunt(s)
    case Eof(_) => []
    case Got(f, rest) =>
      HuntConsumes(s);
      [f] + DecodeAll(rest)
  }

  lemma {:induction false} HuntConsumes(s: seq<byte>)
    ensures Hunt(s).Got? ==> |Hunt(s).rest| < |s|
    decreases |s|, 2
  {
    if s != [] {
      if SyncLike(s[0]) { ReadTypeConsumes(s[1..]); } else { HuntConsumes(s[1..]); }
    }
  }

  lemma {:induction false} ReadTypeConsumes(s: seq<byte>)
    ensures ReadType(s).Got? ==> |ReadType(s).rest| < |s|
    decreases |s|, 1
  {
    if |s| > 1 {
      if s[0] == SYNC {
        ReadTypeConsumes(s[1..]);
      } else {
        var n := Low7(s[1]);
        HuntConsumes(s[2..]);
        if |s| > n + 2 {
          ReadTypeConsumes(s[2..][n + 1..]);
          HuntConsumes(s[2..][n + 1..]);
        }
      }
    }
  }

  // ---- the decoder itself, reading byte by byte ----

  class Reader {
    var unread: seq<byte>

    constructor (s: seq<byte>)
      ensures unread == s
    {
      unread := s;
    }

    method ReadByte() returns (b: Option<byte>)
      modifies this
      ensures old(unread) == [] ==> b == None && unread == []
      ensures old(unread) != [] ==> b == Some(old(unread)[0]) && unread == old(unread)[1..]
    {
      if unread == [] {
        return None;
      }
      b := Some(unread[0]);
      unread := unread[1..];
    }
  }

  /** Result of reading the bytes after the subtype. */
  datatype Attempt = Finished(result: Decoded) | HuntAgain | TypeNext

  method Decode(r: Reader) returns (d: Decoded)
    modifies r
    ensures d == Hunt(old(r.unread))
    ensures d.Got? ==> r.unread == d.rest
    decreases |r.unread|
  {
    ghost var all := r.unread;
    while true
      invariant Hunt(all) == Hunt(r.unread)
      invariant |r.unread| <= |all|
      decreases |r.unread|
    {
      var b := r.ReadByte();
      if b == None {
        return Eof(AtSync);
      }
      if SyncLike(b.value) {
        break;
      }
    }
    while true
      invariant Hunt(all) == ReadType(r.unread)
      invariant |r.unread| < |all|
      decreases |r.unread|
    {
      var b := r.ReadByte();
      if b == None {
        return Eof(AtSubtype);
      }
      if b.value == SYNC {
        continue;
      }
      var a := ReadAfterType(r, Low7(b.value));
      match a
      case Finished(result) =>
        return result;
      case TypeNext =>
      case HuntAgain =>
        d := Decode(r);
        return;
    }
  }

  method ReadAfterType(r: Reader, typ: byte) returns (a: Attempt)
    modifies r
    ensures |r.unread| <= |old(r.unread)|
    ensures ReadBody(typ, old(r.unread)) ==
            match a
            case Finished(result) => result
            case HuntAgain => Hunt(r.unread)
            case TypeNext => ReadType(r.unread)
    ensures a.Finished? && a.result.Got? ==> r.unread == a.result.rest
  {
    var rawLen := r.ReadByte();
    if rawLen == None {
      return Finished(Eof(AtLength));
    }
    var length := Low7(rawLen.value);
    if !KnownType(typ) {
      return HuntAgain;
    }
    var payload, chk := ReadPayload(r, typ, length);
    if |payload| < length {
      return Finished(Eof(AtPayload(|payload|)));
    }
    var cb := r.ReadByte();
    if cb == None {
      return Finished(Eof(AtChecksum));
    }
    if Low7(cb.value) != chk {
      return if cb.value == SYNC then TypeNext else HuntAgain;
    }
    a := Finished(Got(Frame(typ, payload), r.unread));
  }

  /** Reads and masks up to length bytes, keeping the running checksum; stops short only at the end of input. */
  method ReadPayload(r: Reader, typ: byte, length: byte) returns (payload: seq<byte>, chk: byte)
    modifies r
    ensures |payload| <= length && |payload| <= |old(r.unread)|
    ensures payload == Masked(old(r.unread)[..|payload|])
    ensures r.unread == old(r.unread)[|payload|..]
    ensures |payload| < length ==> r.unread == []
    ensures chk == Xor([typ, length] + payload)
  {
    ghost var s, head := r.unread, [typ, length];
    payload, chk := [], Xor2(typ, length);
    XorPair(typ, length);
    for i := 0 to length
      invariant i <= |s| && r.unread == s[i..]
      invariant payload == Masked(s[..i])
      invariant chk == Xor(head + payload)
    {
      var pb := r.ReadByte();
      if pb == None {
        return;
      }
      var b := Low7(pb.value);
      XorSnoc(head + payload, b);
      assert head + (payload + [b]) == (head + payload) + [b];
      payload, chk := payload + [b], Xor2(chk, b);
    }
  }
}
