/** Bytes as they travel on the serial line: the low seven bits are trusted, bit 7 is not. */
module Wire {

  type byte = b: int | 0 <= b < 256

  const SYNC: byte := 0xFE

  function Low7(b: byte): byte { b % 0x80 }

  /** The fuzzy sync match both receivers use: $7C..$7F once bit 7 is gone. */
  predicate SyncLike(b: byte) { Low7(b) >= 0x7C }

  function Masked(s: seq<byte>): (m: seq<byte>)
    ensures |m| == |s|
    ensures forall i :: 0 <= i < |s| ==> m[i] == Low7(s[i])
  {
    seq(|s|, i requires 0 <= i < |s| => Low7(s[i]))
  }

  predicate SevenBit(s: seq<byte>) {
    forall i :: 0 <= i < |s| ==> s[i] < 0x80
  }

  lemma MaskedConcat(a: seq<byte>, b: seq<byte>)
    ensures Masked(a + b) == Masked(a) + Masked(b)
  {}

  lemma MaskedSlice(s: seq<byte>, i: nat, j: nat)
    requires i <= j <= |s|
    ensures Masked(s[i..j]) == Masked(s)[i..j]
  {}

  lemma MaskedSevenBit(s: seq<byte>)
    ensures SevenBit(Masked(s))
    ensures SevenBit(s) <==> Masked(s) == s
  {
    if Masked(s) == s {
      assert forall i :: 0 <= i < |s| ==> s[i] == Masked(s)[i];
    }
  }

  // ---- exclusive or, bit by bit ----

  /** Exclusive or of the low k bits. */
  function Bits(a: nat, b: nat, k: nat): nat {
    if k == 0 then 0 else 2 * Bits(a / 2, b / 2, k - 1) + Differ(a % 2, b % 2)
  }

  function Differ(x: nat, y: nat): nat { if x == y then 0 else 1 }

  function Pow2(k: nat): nat {
    if k == 0 then 1 else 2 * Pow2(k - 1)
  }

  lemma {:induction false} BitsCommute(a: nat, b: nat, k: nat)
    ensures Bits(a, b, k) == Bits(b, a, k)
  {
    if k > 0 { BitsCommute(a / 2, b / 2, k - 1); }
  }

  lemma {:induction false} BitsCancel(a: nat, b: nat, k: nat)
    requires b < Pow2(k)
    ensures Bits(a, Bits(a, b, k), k) == b
  {
    if k > 0 {
      var r := Bits(a / 2, b / 2, k - 1);
      assert Bits(a, b, k) / 2 == r;
      BitsCancel(a / 2, b / 2, k - 1);
    }
  }

  lemma {:induction false} BitsZero(a: nat, k: nat)
    requires a < Pow2(k)
    ensures Bits(a, 0, k) == a
    ensures Bits(a, a, k) == 0
  {
    if k > 0 { BitsZero(a / 2, k - 1); }
  }

  lemma {:induction false} BitsBelow(a: nat, b: nat, k: nat, m: nat)
    requires m <= k && a < Pow2(m) && b < Pow2(m)
    ensures Bits(a, b, k) < Pow2(m)
  {
    if m > 0 {
      BitsBelow(a / 2, b / 2, k - 1, m - 1);
    } else {
      Pow2Positive(k);
      BitsZero(0, k);
    }
  }

  lemma {:induction false} Pow2Positive(k: nat)
    ensures Pow2(k) > 0
  {
    if k > 0 { Pow2Positive(k - 1); }
  }

  lemma {:induction false} BitsAssoc(a: nat, b: nat, c: nat, k: nat)
    ensures Bits(Bits(a, b, k), c, k) == Bits(a, Bits(b, c, k), k)
  {
    if k > 0 {
      BitsAssoc(a / 2, b / 2, c / 2, k - 1);
      AssocHalf(a, b, c, k);
      AssocParity(a, b, c, k);
      Halves(Bits(Bits(a, b, k), c, k), Bits(a, Bits(b, c, k), k));
    }
  }

  lemma AssocHalf(a: nat, b: nat, c: nat, k: nat)
    requires k > 0
    ensures Bits(Bits(a, b, k), c, k) / 2 == Bits(Bits(a / 2, b / 2, k - 1), c / 2, k - 1)
    ensures Bits(a, Bits(b, c, k), k) / 2 == Bits(a / 2, Bits(b / 2, c / 2, k - 1), k - 1)
  {
    BitsSplit(a, b, k);
    BitsSplit(b, c, k);
    BitsSplit(Bits(a, b, k), c, k);
    BitsSplit(a, Bits(b, c, k), k);
  }

  lemma AssocParity(a: nat, b: nat, c: nat, k: nat)
    requires k > 0
    ensures Bits(Bits(a, b, k), c, k) % 2 == Bits(a, Bits(b, c, k), k) % 2
  {
    BitsSplit(a, b, k);
    BitsSplit(b, c, k);
    BitsSplit(Bits(a, b, k), c, k);
    BitsSplit(a, Bits(b, c, k), k);
    Parity(a % 2, b % 2, c % 2);
  }

  lemma BitsSplit(a: nat, b: nat, k: nat)
    requires k > 0
    ensures Bits(a, b, k) / 2 == Bits(a / 2, b / 2, k - 1)
    ensures Bits(a, b, k) % 2 == Differ(a % 2, b % 2)
  {}

  lemma Parity(x: nat, y: nat, z: nat)
    requires x < 2 && y < 2 && z < 2
    ensures Differ(Differ(x, y), z) == Differ(x, Differ(y, z))
  {}

  lemma Halves(x: nat, y: nat)
    requires x / 2 == y / 2 && x % 2 == y % 2
    ensures x == y
  {}

  const BYTE_BITS: nat := 8

  /** The exclusive or of two bytes. */
  function Xor2(a: byte, b: byte): (x: byte)
    ensures a < 0x80 && b < 0x80 ==> x < 0x80
  {
    assert Pow2(7) == 0x80 && Pow2(8) == 0x100;
    BitsBelow(a, b, 8, 8);
    if a < 0x80 && b < 0x80 then
      BitsBelow(a, b, 8, 7);
      Bits(a, b, BYTE_BITS)
    else
      Bits(a, b, BYTE_BITS)
  }

  /** Bit by bit: a bit of the result is set exactly if it is set in one of the two bytes and not in the other. */
  lemma Xor2Bits(a: byte, b: byte, i: nat)
    requires i < BYTE_BITS
    ensures Bit(Xor2(a, b), i) <==> Bit(a, i) != Bit(b, i)
  {
    BitOfBits(a, b, BYTE_BITS, i);
  }

  predicate Bit(x: nat, i: nat) {
    if i == 0 then x % 2 == 1 else Bit(x / 2, i - 1)
  }

  lemma {:induction false} BitOfBits(a: nat, b: nat, k: nat, i: nat)
    requires i < k
    ensures Bit(Bits(a, b, k), i) <==> Bit(a, i) != Bit(b, i)
    decreases i
  {
    BitsSplit(a, b, k);
    if i > 0 {
      BitOfBits(a / 2, b / 2, k - 1, i - 1);
    }
  }

  /** Against all ones a byte's bits turn round. */
  lemma Xor2Complements(a: byte)
    requires a < 0x80
    ensures Xor2(a, 0x7F) == 0x7F - a
  {
    assert Pow2(7) == 0x80;
    BitsComplement(a, BYTE_BITS, 7);
  }

  lemma {:induction false} BitsComplement(x: nat, k: nat, j: nat)
    requires j <= k && x < Pow2(j)
    ensures Bits(x, Pow2(j) - 1, k) == Pow2(j) - 1 - x
    decreases j
  {
    if j == 0 {
      Pow2Positive(k);
      BitsZero(0, k);
    } else {
      Pow2Positive(j - 1);
      var y := Pow2(j) - 1;
      assert y / 2 == Pow2(j - 1) - 1 && y % 2 == 1;
      BitsSplit(x, y, k);
      BitsComplement(x / 2, k - 1, j - 1);
      Halves(Bits(x, y, k), y - x);
    }
  }

  lemma Xor2Laws(a: byte, b: byte, c: byte)
    ensures Xor2(a, b) == Xor2(b, a)
    ensures Xor2(Xor2(a, b), c) == Xor2(a, Xor2(b, c))
    ensures Xor2(a, 0) == a
    ensures Xor2(a, Xor2(a, b)) == b
  {
    assert Pow2(8) == 0x100;
    BitsCommute(a, b, 8);
    BitsAssoc(a, b, c, 8);
    BitsZero(a, 8);
    BitsCancel(a, b, 8);
  }

  lemma Xor2Injective(a: byte, b: byte, c: byte)
    requires Xor2(a, b) == Xor2(a, c) || Xor2(b, a) == Xor2(c, a)
    ensures b == c
  {
    Xor2Laws(a, b, 0);
    Xor2Laws(a, c, 0);
  }

  lemma {:induction false} TopBit(x: nat, k: nat)
    requires x < Pow2(k)
    ensures Bits(x, Pow2(k), k + 1) == x + Pow2(k)
  {
    if k == 0 {
      assert Bits(0, 1, 1) == 2 * Bits(0, 0, 0) + 1;
    } else {
      TopBit(x / 2, k - 1);
    }
  }

  /** The low seven bits of an exclusive or depend on the low seven bits only. */
  lemma LowXor2(a: byte, b: byte)
    ensures Low7(Xor2(a, b)) == Xor2(Low7(a), Low7(b))
  {
    hide Xor2;
    SplitTop(a);
    SplitTop(b);
    SplitTop(Xor2(Low7(a), Low7(b)));
    TopsMove(Low7(a), Low7(b), 0x80);
  }

  lemma TopsMove(p: byte, q: byte, t: byte)
    ensures Xor2(Xor2(p, t), q) == Xor2(Xor2(p, q), t)
    ensures Xor2(p, Xor2(q, t)) == Xor2(Xor2(p, q), t)
    ensures Xor2(Xor2(p, t), Xor2(q, t)) == Xor2(p, q)
  {
    hide Xor2;
    Xor2Laws(p, t, q);
    Xor2Laws(t, q, 0);
    Xor2Laws(p, q, t);
    Xor2Laws(p, t, Xor2(q, t));
    Xor2Laws(t, q, t);
    Xor2Laws(q, t, 0);
  }

  lemma SplitTop(a: byte)
    ensures Xor2(Low7(a), 0x80) == Low7(a) + 0x80
    ensures a == if a < 0x80 then Low7(a) else Xor2(Low7(a), 0x80)
  {
    hide Xor2;
    AddTop(Low7(a));
  }

  lemma AddTop(x: byte)
    requires x < 0x80
    ensures Xor2(x, 0x80) == x + 0x80
  {
    assert Pow2(7) == 0x80;
    TopBit(x, 7);
  }

  // ---- the running checksum ----

  function Xor(s: seq<byte>): byte {
    if s == [] then 0 else Xor2(Xor(s[..|s| - 1]), s[|s| - 1])
  }

  lemma XorSnoc(s: seq<byte>, b: byte)
    ensures Xor(s + [b]) == Xor2(Xor(s), b)
  {
    assert (s + [b])[..|s|] == s;
  }

  lemma {:induction false} XorSevenBit(s: seq<byte>)
    requires SevenBit(s)
    ensures Xor(s) < 0x80
  {
    if s != [] { XorSevenBit(s[..|s| - 1]); }
  }

  lemma XorOne(b: byte)
    ensures Xor([b]) == b
  {
    XorSnoc([], b);
    Xor2Laws(b, 0, 0);
    assert [] + [b] == [b];
  }

  /** The running checksum of ever longer prefixes. */
  lemma XorPrefix(s: seq<byte>, n: nat)
    requires 0 < n <= |s|
    ensures Xor(s[..n]) == Xor2(Xor(s[..n - 1]), s[n - 1])
    ensures n == 1 ==> Xor(s[..n]) == s[0]
    ensures n == 2 ==> Xor(s[..n]) == Xor2(s[0], s[1])
  {
    assert s[..n] == s[..n - 1] + [s[n - 1]];
    XorSnoc(s[..n - 1], s[n - 1]);
    if n <= 2 {
      assert s[..1] == [s[0]];
      XorOne(s[0]);
    }
  }

  lemma XorPair(a: byte, b: byte)
    ensures Xor([a, b]) == Xor2(a, b)
    ensures Xor([a, b] + []) == Xor2(a, b)
  {
    XorPrefix([a, b], 2);
    assert [a, b][..2] == [a, b] == [a, b] + [];
  }

  lemma {:induction false} XorConcat(a: seq<byte>, b: seq<byte>)
    ensures Xor(a + b) == Xor2(Xor(a), Xor(b))
  {
    if b == [] {
      assert a + b == a;
      Xor2Laws(Xor(a), 0, 0);
    } else {
      var c, y := b[..|b| - 1], b[|b| - 1];
      assert a + b == (a + c) + [y];
      XorSnoc(a + c, y);
      XorConcat(a, c);
      Xor2Laws(Xor(a), Xor(c), y);
    }
  }

  /** Two strings that differ in exactly one place have different checksums. */
  lemma XorDetects(s: seq<byte>, t: seq<byte>, k: nat)
    requires |s| == |t| && k < |s| && s[k] != t[k]
    requires forall i :: 0 <= i < |s| && i != k ==> s[i] == t[i]
    ensures Xor(s) != Xor(t)
  {
    var a, z := s[..k], s[k + 1..];
    assert s == (a + [s[k]]) + z && t == (a + [t[k]]) + z;
    XorConcat(a + [s[k]], z);
    XorConcat(a + [t[k]], z);
    XorSnoc(a, s[k]);
    XorSnoc(a, t[k]);
    if Xor(s) == Xor(t) {
      Xor2Injective(Xor(z), Xor2(Xor(a), s[k]), Xor2(Xor(a), t[k]));
      Xor2Injective(Xor(a), s[k], t[k]);
    }
  }

  lemma {:induction false} LowXor(s: seq<byte>)
    ensures Low7(Xor(s)) == Xor(Masked(s))
  {
    hide Xor2;
    if s != [] {
      var init, b := s[..|s| - 1], s[|s| - 1];
      LowXor(init);
      LowXor2(Xor(init), b);
      assert Masked(s) == Masked(init) + [Low7(b)];
      XorSnoc(Masked(init), Low7(b));
    }
  }
}
