/** The 16-byte blocks of OCB2 and the offset arithmetic in GF(2^128). */
module Ocb2Block {
  import opened Bytes

  type Block = b: seq<Byte> | |b| == 16 witness seq(16, i => 0)

  const ZERO_BLOCK: Block := seq(16, i => 0)

  function XorBlocks(a: Block, b: Block): (r: Block)
  {
    seq(16, i requires 0 <= i < 16 => XorByte(a[i], b[i]))
  }

  lemma XorBlocksCancel(a: Block, b: Block)
    ensures XorBlocks(b, XorBlocks(b, a)) == a
    ensures XorBlocks(XorBlocks(a, b), b) == a
  {
    forall i | 0 <= i < 16
      ensures XorBlocks(b, XorBlocks(b, a))[i] == a[i] == XorBlocks(XorBlocks(a, b), b)[i]
    {
      XorCancels(a[i], b[i]);
    }
  }

  // -- Doubling and tripling -------------------------------------------

  /** A byte of a one-bit left shift, `next` being the byte to its right: the top
      bit leaves and the low bit is clear, so the source's bitwise or is a sum. */
  function ShiftedByte(b: Byte, next: Byte): (r: Byte)
  {
    2 * (b % 128) + next / 128
  }

  function Doubled(b: Block): (r: Block)
  {
    seq(16, i requires 0 <= i < 16 =>
          if i < 15 then ShiftedByte(b[i], b[i + 1])
          else XorByte(ShiftedByte(b[15], 0), Feedback(b[0] / 128)))
  }

  /** The carry out of the top bit, times the low terms of the field polynomial. */
  function Feedback(carry: nat): (r: Byte)
    requires carry < 2
  {
    carry * 0x87
  }

  function Tripled(b: Block): (r: Block)
  {
    XorBlocks(b, Doubled(b))
  }

  lemma DoubledAt(b: Block, i: nat)
    requires i < 16
    ensures Doubled(b)[i] ==
            if i < 15 then ShiftedByte(b[i], b[i + 1]) else XorByte(ShiftedByte(b[15], 0), Feedback(b[0] / 128))
    ensures Tripled(b)[i] == XorByte(b[i], Doubled(b)[i])
  {
  }

  method S2(block: array<Byte>)
    requires block.Length == 16
    modifies block
    ensures block[..] == Doubled(old(block[..]))
  {
    hide XorByte, ShiftedByte, Feedback, Doubled;
    ghost var was: Block := block[..];
    var carry := block[0] / 128;
    for i := 0 to 15
      invariant forall k :: 0 <= k < i ==> block[k] == Doubled(was)[k]
      invariant forall k :: i <= k < 16 ==> block[k] == was[k]
    {
      DoubledAt(was, i);
      block[i] := ShiftedByte(block[i], block[i + 1]);
    }
    DoubledAt(was, 15);
    block[15] := XorByte(ShiftedByte(block[15], 0), Feedback(carry));
  }

  method S3(block: array<Byte>)
    requires block.Length == 16
    modifies block
    ensures block[..] == Tripled(old(block[..]))
  {
    hide XorByte, ShiftedByte, Feedback, Doubled, Tripled;
    ghost var was: Block := block[..];
    var carry := block[0] / 128;
    for i := 0 to 15
      invariant forall k :: 0 <= k < i ==> block[k] == Tripled(was)[k]
      invariant forall k :: i <= k < 16 ==> block[k] == was[k]
    {
      DoubledAt(was, i);
      block[i] := XorByte(block[i], ShiftedByte(block[i], block[i + 1]));
    }
    DoubledAt(was, 15);
    block[15] := XorByte(block[15], XorByte(ShiftedByte(block[15], 0), Feedback(carry)));
  }

  method XorInPlace(a: array<Byte>, b: Block)
    requires a.Length == 16
    modifies a
    ensures a[..] == XorBlocks(old(a[..]), b)
  {
    hide XorByte;
    ghost var was: Block := a[..];
    for i := 0 to 16
      invariant forall k :: 0 <= k < i ==> a[k] == XorBlocks(was, b)[k]
      invariant forall k :: i <= k < 16 ==> a[k] == was[k]
    {
      a[i] := XorByte(a[i], b[i]);
    }
  }

  // -- What the arithmetic means: polynomials over GF(2) -----------------
  // A polynomial is the natural whose bit k is the coefficient of x^k, so
  // addition is Xor and multiplication by x is doubling.

  /** Remainder modulo x^128 + x^7 + x^2 + x + 1 of a polynomial of degree at most 128. */
  function Reduced(p: nat): (r: nat)
    requires p < Pow2(129)
  {
    if p < Pow2(128) then p else Xor(p, Pow2(128) + 0x87)
  }

  /** Shift a byte string left by one bit, `c` entering on the right. */
  function ShiftedLeft(s: seq<Byte>, c: nat): (r: seq<Byte>)
    requires c < 2
    ensures |r| == |s|
  {
    if s == [] then []
    else ShiftedLeft(s[..|s| - 1], s[|s| - 1] / 128) + [2 * (s[|s| - 1] % 128) + c]
  }

  lemma {:induction false} ShiftedLeftValue(s: seq<Byte>, c: nat)
    requires s != [] && c < 2
    ensures BigEndian(ShiftedLeft(s, c)) + (s[0] / 128) * Pow2(8 * |s|) == 2 * BigEndian(s) + c
    decreases |s|
  {
    var t, x := s[..|s| - 1], s[|s| - 1];
    var r := ShiftedLeft(s, c);
    assert r[..|r| - 1] == ShiftedLeft(t, x / 128);
    assert Pow2(8) == 256;
    if t == [] {
      assert BigEndian(t) == 0;
    } else {
      ShiftedLeftValue(t, x / 128);
      Pow2Add(8, 8 * |t|);
      assert Pow2(8 * |s|) == 256 * Pow2(8 * |t|);
    }
  }

  /** All but the last byte of a shift, byte by byte. */
  lemma {:induction false} ShiftedLeftAt(s: seq<Byte>, c: nat, i: nat)
    requires i < |s| && c < 2
    ensures ShiftedLeft(s, c)[i] == 2 * (s[i] % 128) + (if i + 1 < |s| then s[i + 1] / 128 else c)
    decreases |s|
  {
    if i + 1 < |s| { ShiftedLeftAt(s[..|s| - 1], s[|s| - 1] / 128, i); }
  }

  lemma {:induction false} XorClearsTop(h: nat, k: nat)
    requires h < Pow2(k)
    ensures Xor(Pow2(k) + h, Pow2(k)) == h
    decreases k
  {
    if k == 0 {
      XorSelf(1);
    } else {
      XorClearsTop(h / 2, k - 1);
      assert (Pow2(k) + h) / 2 == Pow2(k - 1) + h / 2;
    }
  }

  /** A doubling is a left shift with the feedback added to its last byte. */
  lemma DoubledIsShift(b: Block)
    ensures var s := ShiftedLeft(b, 0);
            BigEndian(s) == 256 * BigEndian(s[..15]) + s[15] &&
            BigEndian(Doubled(b)) == 256 * BigEndian(s[..15]) + XorByte(s[15], Feedback(b[0] / 128))
  {
    hide Xor;
    var s, d := ShiftedLeft(b, 0), Doubled(b);
    forall i | 0 <= i < 15 ensures d[i] == s[i] { ShiftedLeftAt(b, 0, i); }
    ShiftedLeftAt(b, 0, 15);
    assert d[..15] == s[..15];
  }

  /** `Doubled` is multiplication by x in GF(2^128). */
  lemma DoubledIsTimesX(b: Block)
    ensures BigEndian(b) < Pow2(128)
    ensures 2 * BigEndian(b) < Pow2(129) && BigEndian(Doubled(b)) == Reduced(2 * BigEndian(b))
  {
    hide Xor, Pow2, Doubled, ShiftedLeft, BigEndian, XorByte;
    BigEndianBound(b);
    Pow2Next(128);
    var s := ShiftedLeft(b, 0);
    DoubledIsShift(b);
    ShiftedLeftValue(b, 0);
    BigEndianBound(s);
    XorZero(s[15]);
    if b[0] / 128 == 1 {
      BigEndianBound(s[..15]);
      ReduceOnce(BigEndian(s[..15]), s[15]);
    }
  }

  /** Reducing x^128 + 256h + l. */
  lemma ReduceOnce(h: nat, l: Byte)
    requires h < Pow2(120)
    ensures Xor(Pow2(128) + 256 * h + l, Pow2(128) + 0x87) == 256 * h + Xor(l, 0x87)
  {
    hide Xor, Pow2;
    Pow2Add(8, 120);
    Pow2Of8();
    XorSplit(Pow2(120) + h, l, Pow2(120), 0x87);
    XorClearsTop(h, 120);
  }

  lemma {:induction false} BigEndianXor(a: seq<Byte>, b: seq<Byte>, r: seq<Byte>)
    requires |a| == |b| == |r| && forall i :: 0 <= i < |a| ==> r[i] == XorByte(a[i], b[i])
    ensures BigEndian(r) == Xor(BigEndian(a), BigEndian(b))
    decreases |a|
  {
    hide Xor;
    if a == [] {
      XorZero(0);
    } else {
      var n := |a| - 1;
      BigEndianXor(a[..n], b[..n], r[..n]);
      XorSplit(BigEndian(a[..n]), a[n], BigEndian(b[..n]), b[n]);
    }
  }

  /** `Tripled` is multiplication by x + 1 in GF(2^128). */
  lemma TripledIsTimesXPlus1(b: Block)
    ensures 2 * BigEndian(b) < Pow2(129)
    ensures BigEndian(Tripled(b)) == Xor(BigEndian(b), Reduced(2 * BigEndian(b)))
  {
    hide Xor, Pow2;
    DoubledIsTimesX(b);
    BigEndianXor(b, Doubled(b), Tripled(b));
  }

  // -- Linearity and injectivity -----------------------------------------

  lemma XorSwap(p: nat, q: nat, r: nat, s: nat)
    ensures Xor(Xor(p, q), Xor(r, s)) == Xor(Xor(p, r), Xor(q, s))
  {
    hide Xor;
    XorAssociates(p, q, Xor(r, s));
    XorAssociates(q, r, s);
    XorCommutes(q, r);
    XorAssociates(r, q, s);
    XorAssociates(p, r, Xor(q, s));
  }

  lemma XorDouble(a: nat, b: nat)
    ensures Xor(2 * a, 2 * b) == 2 * Xor(a, b)
  {
    hide Xor;
    XorSplit2(a, 0, b, 0);
    XorZero(0);
  }

  /** A byte's top bit and low seven bits pass through exclusive or separately. */
  lemma XorBytesParts(x: Byte, y: Byte)
    ensures XorByte(x, y) / 128 == Xor(x / 128, y / 128) < 2
    ensures XorByte(x, y) % 128 == Xor(x % 128, y % 128)
  {
    hide Xor;
    var l, m := x % 128, y % 128;
    XorSplit(x / 128, 2 * l, y / 128, 2 * m);
    XorDouble(x, y);
    XorDouble(l, m);
    assert 2 * x == 256 * (x / 128) + 2 * l && 2 * y == 256 * (y / 128) + 2 * m;
    assert Pow2(1) == 2 && Pow2(7) == 128;
    XorBound(x / 128, y / 128, 1);
    XorBound(x % 128, y % 128, 7);
  }

  lemma ShiftedByteLinear(x: Byte, y: Byte, i: Byte, j: Byte)
    ensures ShiftedByte(XorByte(x, y), XorByte(i, j)) == XorByte(ShiftedByte(x, i), ShiftedByte(y, j))
  {
    hide Xor;
    XorBytesParts(x, y);
    XorBytesParts(i, j);
    XorSplit2(x % 128, i / 128, y % 128, j / 128);
  }

  lemma FeedbackLinear(c: nat, d: nat)
    requires c < 2 && d < 2
    ensures Xor(c, d) < 2 && Feedback(Xor(c, d)) == XorByte(Feedback(c), Feedback(d))
  {
    hide Xor;
    XorZero(0);
    XorZero(1);
    XorSelf(1);
    XorZero(0x87);
    XorSelf(0x87);
  }

  lemma DoubledIsLinear(a: Block, b: Block)
    ensures Doubled(XorBlocks(a, b)) == XorBlocks(Doubled(a), Doubled(b))
  {
    hide Xor;
    var ab := XorBlocks(a, b);
    forall i | 0 <= i < 16 ensures Doubled(ab)[i] == XorBlocks(Doubled(a), Doubled(b))[i] {
      if i < 15 {
        ShiftedByteLinear(a[i], b[i], a[i + 1], b[i + 1]);
      } else {
        ShiftedByteLinear(a[15], b[15], 0, 0);
        XorZero(0);
        XorBytesParts(a[0], b[0]);
        FeedbackLinear(a[0] / 128, b[0] / 128);
        XorSwap(ShiftedByte(a[15], 0), Feedback(a[0] / 128), ShiftedByte(b[15], 0), Feedback(b[0] / 128));
      }
    }
  }

  lemma DoubledIsInjective(a: Block, b: Block)
    requires Doubled(a) == Doubled(b)
    ensures a == b
  {
    hide Xor, ShiftedByte, XorByte;
    assert Doubled(a)[15] == Doubled(b)[15];
    FeedbackShows(a[15], a[0] / 128, b[15], b[0] / 128);
    forall i | 0 <= i < 16 ensures a[i] == b[i] {
      assert i > 0 ==> Doubled(a)[i - 1] == Doubled(b)[i - 1];
      if i > 0 { ShiftShows(a[i - 1], a[i], b[i - 1], b[i]); }
      assert i < 15 ==> Doubled(a)[i] == Doubled(b)[i];
      if i < 15 { ShiftShows(a[i], a[i + 1], b[i], b[i + 1]); }
    }
  }

  lemma ShiftShows(x: Byte, i: Byte, y: Byte, j: Byte)
    requires ShiftedByte(x, i) == ShiftedByte(y, j)
    ensures x % 128 == y % 128 && i / 128 == j / 128
  {
  }

  /** The last byte of a doubling shows the carry in its low bit. */
  lemma FeedbackShows(x: Byte, c: nat, y: Byte, d: nat)
    requires c < 2 && d < 2
    requires XorByte(ShiftedByte(x, 0), Feedback(c)) == XorByte(ShiftedByte(y, 0), Feedback(d))
    ensures c == d && x % 128 == y % 128
  {
    hide Xor;
    var p, q := ShiftedByte(x, 0), ShiftedByte(y, 0);
    FeedbackParity(x % 128, c);
    FeedbackParity(y % 128, d);
    XorCancels(p, Feedback(c));
    XorCancels(q, Feedback(c));
  }

  lemma FeedbackParity(u: nat, c: nat)
    requires c < 2
    ensures Xor(2 * u, Feedback(c)) % 2 == c
  {
    hide Xor;
    XorHalves(2 * u, Feedback(c));
    assert 0x87 % 2 == 1;
  }
}
