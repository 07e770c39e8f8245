/** Bytes, exclusive or, and little-endian counters held in byte strings. */
module Bytes {

  type Byte = x: int | 0 <= x < 256

  datatype Option<+T> = None | Some(value: T)

  datatype Result<+T> = Ok(value: T) | Err

  // -- Products and quotients ------------------------------------------

  function Min(a: nat, b: nat): (m: nat) { if a <= b then a else b }

  /** Subtraction that stops at zero. */
  function Saturating(a: nat, b: nat): (d: nat) { if a < b then 0 else a - b }

  lemma MulMonotone(d: nat, p: nat, q: nat)
    requires p <= q
    ensures d * p <= d * q && d * p == d * (p - 1) + d
  {
    assert d * q == d * p + d * (q - p);
  }

  lemma QuotientIs(n: nat, d: nat, q: nat, r: nat)
    requires n == d * q + r && r < d
    ensures n / d == q
  {
    var p := n / d;
    assert n == d * p + n % d;
    if p < q {
      MulMonotone(d, p + 1, q);
    } else if q < p {
      MulMonotone(d, q + 1, p);
    }
  }

  // -- Powers of two ---------------------------------------------------

  function Pow2(k: nat): (p: nat)
    ensures p > 0
  {
    if k == 0 then 1 else 2 * Pow2(k - 1)
  }

  lemma {:induction false} Pow2Add(j: nat, k: nat)
    ensures Pow2(j + k) == Pow2(j) * Pow2(k)
  {
    if j > 0 {
      Pow2Add(j - 1, k);
      assert Pow2(j + k) == 2 * (Pow2(j - 1) * Pow2(k));
      assert 2 * (Pow2(j - 1) * Pow2(k)) == (2 * Pow2(j - 1)) * Pow2(k);
    }
  }

  lemma Pow2Next(k: nat)
    ensures Pow2(k + 1) == 2 * Pow2(k)
  {
  }

  lemma Pow2Of8()
    ensures Pow2(8) == 256
  {
  }

  // -- Exclusive or ----------------------------------------------------

  /** Bitwise exclusive or of two naturals, bit by bit from the lowest. */
  function Xor(a: nat, b: nat): nat
    decreases a + b
  {
    if a == 0 && b == 0 then 0
    else 2 * Xor(a / 2, b / 2) + (if a % 2 == b % 2 then 0 else 1)
  }

  lemma {:induction false} XorCommutes(a: nat, b: nat)
    ensures Xor(a, b) == Xor(b, a)
    decreases a + b
  {
    if a != 0 || b != 0 { XorCommutes(a / 2, b / 2); }
  }

  lemma {:induction false} XorZero(a: nat)
    ensures Xor(a, 0) == a == Xor(0, a)
  {
    if a != 0 { XorZero(a / 2); }
  }

  lemma {:induction false} XorSelf(a: nat)
    ensures Xor(a, a) == 0
  {
    if a != 0 { XorSelf(a / 2); }
  }

  lemma {:induction false} XorAssociates(a: nat, b: nat, c: nat)
    ensures Xor(Xor(a, b), c) == Xor(a, Xor(b, c))
    decreases a + b + c
  {
    if a == 0 && b == 0 {
      XorZero(c);
      XorZero(Xor(0, c));
    } else if b == 0 && c == 0 {
      XorZero(a);
      XorZero(Xor(a, 0));
    } else {
      XorAssociates(a / 2, b / 2, c / 2);
      XorHalves(a, b);
      XorHalves(b, c);
      XorHalves(Xor(a, b), c);
      XorHalves(a, Xor(b, c));
    }
  }

  /** The low bit and the remaining bits of an exclusive or. */
  lemma XorHalves(a: nat, b: nat)
    ensures Xor(a, b) / 2 == Xor(a / 2, b / 2)
    ensures Xor(a, b) % 2 == if a % 2 == b % 2 then 0 else 1
    ensures Xor(a, b) == 2 * (Xor(a, b) / 2) + Xor(a, b) % 2
  {
  }

  lemma XorCancels(a: nat, b: nat)
    ensures Xor(Xor(a, b), b) == a
    ensures Xor(b, Xor(b, a)) == a
  {
    XorAssociates(a, b, b);
    XorAssociates(b, b, a);
    XorSelf(b);
    XorZero(a);
  }

  lemma {:induction false} XorBound(a: nat, b: nat, k: nat)
    requires a < Pow2(k) && b < Pow2(k)
    ensures Xor(a, b) < Pow2(k)
    decreases k
  {
    if k > 0 && (a != 0 || b != 0) { XorBound(a / 2, b / 2, k - 1); }
  }

  lemma XorSplit2(a: nat, b: nat, c: nat, d: nat)
    requires b < 2 && d < 2
    ensures Xor(2 * a + b, 2 * c + d) == 2 * Xor(a, c) + Xor(b, d)
  {
    assert (2 * a + b) / 2 == a && (2 * c + d) / 2 == c;
    assert (2 * a + b) % 2 == b && (2 * c + d) % 2 == d;
  }

  lemma XorSplit4(a: nat, b: nat, c: nat, d: nat)
    requires b < 4 && d < 4
    ensures Xor(4 * a + b, 4 * c + d) == 4 * Xor(a, c) + Xor(b, d)
  {
    hide Xor;
    XorSplit2(2 * a + b / 2, b % 2, 2 * c + d / 2, d % 2);
    XorSplit2(a, b / 2, c, d / 2);
    XorSplit2(b / 2, b % 2, d / 2, d % 2);
  }

  lemma XorSplit16(a: nat, b: nat, c: nat, d: nat)
    requires b < 16 && d < 16
    ensures Xor(16 * a + b, 16 * c + d) == 16 * Xor(a, c) + Xor(b, d)
  {
    hide Xor;
    XorSplit4(4 * a + b / 4, b % 4, 4 * c + d / 4, d % 4);
    XorSplit4(a, b / 4, c, d / 4);
    XorSplit4(b / 4, b % 4, d / 4, d % 4);
  }

  /** Exclusive or acts on the low byte and on the rest separately. */
  lemma XorSplit(a: nat, b: Byte, c: nat, d: Byte)
    ensures Xor(256 * a + b, 256 * c + d) == 256 * Xor(a, c) + Xor(b, d)
  {
    hide Xor;
    XorSplit16(16 * a + b / 16, b % 16, 16 * c + d / 16, d % 16);
    XorSplit16(a, b / 16, c, d / 16);
    XorSplit16(b / 16, b % 16, d / 16, d % 16);
  }

  function XorByte(a: Byte, b: Byte): (r: Byte)
    ensures r == Xor(a, b)
  {
    assert Pow2(8) == 256;
    XorBound(a, b, 8);
    Xor(a, b)
  }

  // -- Big-endian numbers --------------------------------------------------

  function BigEndian(s: seq<Byte>): (n: nat)
  {
    if s == [] then 0 else 256 * BigEndian(s[..|s| - 1]) + s[|s| - 1]
  }

  lemma {:induction false} BigEndianBound(s: seq<Byte>)
    ensures BigEndian(s) < Pow2(8 * |s|)
  {
    if s != [] {
      var t := s[..|s| - 1];
      BigEndianBound(t);
      Pow2Add(8, 8 * |t|);
      assert Pow2(8) == 256;
    }
  }

  function ToBigEndian(n: nat, k: nat): (s: seq<Byte>)
    ensures |s| == k
  {
    if k == 0 then [] else ToBigEndian(n / 256, k - 1) + [n % 256]
  }

  // -- Little-endian counters ------------------------------------------

  function LittleEndian(s: seq<Byte>): (n: nat)
  {
    if s == [] then 0 else s[0] + 256 * LittleEndian(s[1..])
  }

  function ToLittleEndian(n: nat, k: nat): (s: seq<Byte>)
    ensures |s| == k
  {
    if k == 0 then [] else [n % 256] + ToLittleEndian(n / 256, k - 1)
  }

  lemma {:induction false} LittleEndianBound(s: seq<Byte>)
    ensures LittleEndian(s) < Pow2(8 * |s|)
  {
    if s != [] {
      LittleEndianBound(s[1..]);
      Pow2Add(8, 8 * |s[1..]|);
      assert Pow2(8) == 256;
    }
  }

  lemma LowByte(b: Byte, v: nat)
    ensures (b + 256 * v) % 256 == b && (b + 256 * v) / 256 == v
  {
  }

  /** A byte string is determined by its length and value. */
  lemma {:induction false} LittleEndianRoundTrip(s: seq<Byte>)
    ensures ToLittleEndian(LittleEndian(s), |s|) == s
  {
    if s != [] {
      LittleEndianRoundTrip(s[1..]);
      LowByte(s[0], LittleEndian(s[1..]));
      assert s == [s[0]] + s[1..];
    }
  }

  lemma {:induction false} ToLittleEndianValue(n: nat, k: nat)
    requires n < Pow2(8 * k)
    ensures LittleEndian(ToLittleEndian(n, k)) == n
  {
    if k > 0 {
      Pow2Add(8, 8 * (k - 1));
      assert Pow2(8) == 256;
      ToLittleEndianValue(n / 256, k - 1);
      assert ToLittleEndian(n, k)[1..] == ToLittleEndian(n / 256, k - 1);
    }
  }

  /** Add one with wrapping bytes, stopping at the first byte that does not wrap. */
  function Incremented(s: seq<Byte>): (r: seq<Byte>)
    ensures |r| == |s|
  {
    if s == [] then []
    else if s[0] == 255 then [0] + Incremented(s[1..])
    else [s[0] + 1] + s[1..]
  }

  lemma {:induction false} IncrementedValue(s: seq<Byte>)
    ensures LittleEndian(Incremented(s)) ==
            if LittleEndian(s) + 1 == Pow2(8 * |s|) then 0 else LittleEndian(s) + 1
  {
    if s != [] {
      var t := s[1..];
      Pow2Add(8, 8 * |t|);
      assert Pow2(8) == 256;
      if s[0] == 255 {
        IncrementedValue(t);
        assert Incremented(s)[1..] == Incremented(t);
      } else {
        LittleEndianBound(t);
        assert Incremented(s)[1..] == t;
      }
    }
  }

  /** Leading 255s wrap to zero and pass the carry on. */
  lemma {:induction false} IncrementedCarry(s: seq<Byte>, i: nat)
    requires i <= |s| && forall k :: 0 <= k < i ==> s[k] == 255
    ensures forall k :: 0 <= k < i ==> Incremented(s)[k] == 0
    ensures Incremented(s)[i..] == Incremented(s[i..])
  {
    if i > 0 {
      IncrementedCarry(s[1..], i - 1);
      assert Incremented(s)[1..] == Incremented(s[1..]);
      assert s[1..][i - 1..] == s[i..];
      assert Incremented(s)[i..] == Incremented(s)[1..][i - 1..];
      forall k | 0 < k < i ensures Incremented(s)[k] == 0 {
        assert Incremented(s)[k] == Incremented(s)[1..][k - 1];
      }
    }
  }

  lemma IncrementedStops(s: seq<Byte>, i: nat, r: seq<Byte>)
    requires i < |s| == |r| && s[i] != 255
    requires forall k :: 0 <= k < i ==> s[k] == 255 && r[k] == 0
    requires r[i] == s[i] + 1 && r[i + 1..] == s[i + 1..]
    ensures r == Incremented(s)
  {
    IncrementedCarry(s, i);
    assert s[i..][1..] == s[i + 1..];
    assert r[i..] == [r[i]] + r[i + 1..];
    assert r[..i] == Incremented(s)[..i];
    assert r == r[..i] + r[i..] && Incremented(s) == Incremented(s)[..i] + Incremented(s)[i..];
  }

  /** The carry loop, run in place over `a[start..]`. */
  method IncrementFrom(a: array<Byte>, start: nat)
    requires start <= a.Length
    modifies a
    ensures a[..] == old(a[..start]) + Incremented(old(a[start..]))
  {
    hide Incremented;
    ghost var was, tail := a[..], a[start..];
    var i := start;
    while i < a.Length
      invariant start <= i <= a.Length
      invariant a[..start] == was[..start]
      invariant a[i..] == was[i..]
      invariant forall k :: start <= k < i ==> was[k] == 255 && a[k] == 0
    {
      assert a[i] == a[i..][0] == was[i];
      a[i] := if a[i] == 255 then 0 else a[i] + 1;
      if a[i] != 0 {
        IncrementedStops(tail, i - start, a[start..]);
        assert a[..] == a[..start] + a[start..];
        return;
      }
      i := i + 1;
    }
    IncrementedCarry(tail, |tail|);
    assert a[start..] == Incremented(tail);
    assert a[..] == a[..start] + a[start..];
  }
}
