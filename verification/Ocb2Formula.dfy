/** The mode in closed form: every ciphertext byte and the tag by position. */
module Ocb2Formula {
  import opened Bytes
  import opened Ocb2Block
  import opened Ocb2Mode

  // -- Offsets as powers of x -----------------------------------------------------------

  /** x^i times a polynomial over GF(2), modulo x^128 + x^7 + x^2 + x + 1. */
  function Power(l: nat, i: nat): (p: nat) {
    if i == 0 then l
    else
      var twice := 2 * Power(l, i - 1);
      if twice < Pow2(128) then twice else Xor(twice, Pow2(128) + 0x87)
  }

  /** The block of x^i times a block. */
  function XPower(l: Block, i: nat): (b: Block) { ToBigEndian(Power(BigEndian(l), i), 16) }

  function Offset(l: Block, i: nat): (b: Block) { if i == 0 then l else Doubled(Offset(l, i - 1)) }

  lemma {:induction false} OffsetOfDoubled(l: Block, i: nat)
    ensures Offset(Doubled(l), i) == Offset(l, i + 1)
  {
    hide Doubled;
    if i > 0 { OffsetOfDoubled(l, i - 1); }
  }

  lemma {:induction false} BigEndianComesBack(s: seq<Byte>)
    ensures ToBigEndian(BigEndian(s), |s|) == s
  {
    if s != [] {
      var t, x := s[..|s| - 1], s[|s| - 1];
      BigEndianComesBack(t);
      QuotientIs(BigEndian(s), 256, BigEndian(t), x);
      assert s == t + [x];
    }
  }

  /** Iterated doubling is multiplication by a power of x. */
  lemma {:induction false} OffsetIsPower(l: Block, i: nat)
    ensures BigEndian(Offset(l, i)) == Power(BigEndian(l), i)
    ensures Offset(l, i) == XPower(l, i)
  {
    hide Doubled, BigEndian, ToBigEndian, Xor, Pow2;
    if i > 0 {
      OffsetIsPower(l, i - 1);
      DoubledIsTimesX(Offset(l, i - 1));
    }
    BigEndianComesBack(Offset(l, i));
  }

  // -- The last chunk's length -----------------------------------------------------------

  /** A small number takes one byte. */
  lemma {:induction false} SmallBigEndian(n: Byte, k: nat)
    ensures ToBigEndian(n, k + 1) == seq(k, i => 0) + [n]
  {
    if k > 0 {
      SmallBigEndian(0, k - 1);
      assert n / 256 == 0 && n % 256 == n;
      assert seq(k, i => 0) == seq(k - 1, i => 0) + [0];
    } else {
      assert ToBigEndian(n / 256, 0) == [];
    }
  }

  lemma LengthIsBits(remaining: nat)
    requires remaining <= 16
    ensures LengthBlock(remaining) == ToBigEndian(8 * remaining, 16)
  {
    hide ToBigEndian;
    SmallBigEndian(8 * remaining, 15);
  }

  // -- The closed form ---------------------------------------------------------------------

  /** Full blocks before the last chunk, which has 1 to 16 bytes unless the text is empty. */
  function FullBlocks(n: nat): (k: nat)
    ensures 16 * k <= n <= 16 * k + 16
  {
    if n == 0 then 0 else (n - 1) / 16
  }

  function BlockAt(s: seq<Byte>, i: nat): (b: Block)
    requires 16 * i + 16 <= |s|
  {
    s[16 * i..16 * i + 16]
  }

  /** The exclusive or of the bytes at positions j, 16 + j, 32 + j, and so on. */
  function Column(text: seq<Byte>, j: nat): (b: Byte)
    decreases |text|
  {
    if j >= |text| then 0
    else if |text| <= 16 then text[j]
    else XorByte(text[j], Column(text[16..], j))
  }

  /** The exclusive or of all blocks, the last chunk filled up from the pad. */
  function Sum(text: seq<Byte>, pad: Block): (b: Block) {
    var used := |text| - 16 * FullBlocks(|text|);
    seq(16, j requires 0 <= j < 16 => XorByte(Column(text, j), if j < used then 0 else pad[j]))
  }

  /** OCB2 as Mumble uses it. With L the encrypted nonce and the text m - 1 full blocks and
      a last chunk: ciphertext block i is x^i L xor E(x^i L xor block i); the last chunk is
      xored with the pad E(its bit length xor x^m L); the tag is E of the exclusive or of
      all blocks and of (x + 1) x^m L. */
  predicate IsOcb2(c: Cipher, nonce: Block, plain: seq<Byte>, out: Processed)
  {
    var l, m := c.encrypt(nonce), FullBlocks(|plain|) + 1;
    var used := |plain| - 16 * (m - 1);
    var pad := c.encrypt(XorBlocks(ToBigEndian(8 * used, 16), XPower(l, m)));
    && |out.text| == |plain|
    && (forall i :: 0 <= i < m - 1 ==>
          BlockAt(out.text, i) ==
          XorBlocks(XPower(l, i + 1), c.encrypt(XorBlocks(XPower(l, i + 1), BlockAt(plain, i)))))
    && (forall j :: 16 * (m - 1) <= j < |plain| ==> out.text[j] == XorByte(plain[j], pad[j - 16 * (m - 1)]))
    && out.tag == c.encrypt(XorBlocks(Sum(plain, pad), XorBlocks(XPower(l, m), XPower(l, m + 1))))
  }

  // -- Sealing computes it -------------------------------------------------------------------

  /** The pad of the last chunk, with offsets counted from `delta`. */
  function LastPad(c: Cipher, delta: Block, n: nat): (pad: Block) {
    var k := FullBlocks(n);
    Pad(c, Offset(delta, k + 1), n - 16 * k)
  }

  lemma FullBlocksRest(plain: seq<Byte>)
    requires |plain| > 16
    ensures FullBlocks(|plain|) == FullBlocks(|plain| - 16) + 1
  {
  }

  lemma LastPadRest(c: Cipher, delta: Block, n: nat)
    requires n > 16
    ensures LastPad(c, Doubled(delta), n - 16) == LastPad(c, delta, n)
  {
    hide Doubled, Pad, Offset;
    OffsetOfDoubled(delta, FullBlocks(n - 16) + 1);
  }

  lemma BlockOfRest(s: seq<Byte>, i: nat)
    requires i > 0 && 16 * i + 16 <= |s|
    ensures BlockAt(s, i) == BlockAt(s[16..], i - 1)
  {
  }

  lemma {:induction false} BlocksSealed(c: Cipher, delta: Block, checksum: Block, plain: seq<Byte>, i: nat)
    requires i < FullBlocks(|plain|)
    ensures var d := Offset(delta, i + 1);
            BlockAt(SealFrom(c, delta, checksum, plain).text, i) ==
            XorBlocks(d, c.encrypt(XorBlocks(d, BlockAt(plain, i))))
    decreases |plain|
  {
    hide XorBlocks, Doubled;
    var d, block := Doubled(delta), plain[..16];
    var rest := SealFrom(c, d, XorBlocks(checksum, block), plain[16..]);
    var text := SealFrom(c, delta, checksum, plain).text;
    if i == 0 {
      assert Offset(delta, 1) == Doubled(Offset(delta, 0));
      assert BlockAt(text, 0) == text[..16] && BlockAt(plain, 0) == block;
    } else {
      hide BlockAt, Offset;
      FullBlocksRest(plain);
      OffsetOfDoubled(delta, i);
      assert text[16..] == rest.text;
      BlockOfRest(text, i);
      BlockOfRest(plain, i);
      BlocksSealed(c, d, XorBlocks(checksum, block), plain[16..], i - 1);
    }
  }

  lemma {:induction false} ChunkSealed(c: Cipher, delta: Block, checksum: Block, plain: seq<Byte>, j: nat)
    requires 16 * FullBlocks(|plain|) <= j < |plain|
    ensures SealFrom(c, delta, checksum, plain).text[j] ==
            XorByte(plain[j], LastPad(c, delta, |plain|)[j - 16 * FullBlocks(|plain|)])
    decreases |plain|
  {
    hide Doubled, Pad, Xor;
    var d := Doubled(delta);
    if |plain| > 16 {
      var block := plain[..16];
      FullBlocksRest(plain);
      LastPadRest(c, delta, |plain|);
      ChunkSealed(c, d, XorBlocks(checksum, block), plain[16..], j - 16);
    } else {
      assert Offset(delta, 1) == Doubled(Offset(delta, 0));
      var pad := Pad(c, d, |plain|);
      XorCommutes(pad[j], plain[j]);
    }
  }

  lemma SumOfChunk(plain: seq<Byte>, pad: Block)
    requires |plain| <= 16
    ensures Sum(plain, pad) == plain + pad[|plain|..]
  {
    hide Xor;
    forall j | 0 <= j < 16 ensures Sum(plain, pad)[j] == (plain + pad[|plain|..])[j] {
      if j < |plain| { XorZero(plain[j]); } else { XorZero(pad[j]); }
    }
  }

  lemma SumOfRest(checksum: Block, plain: seq<Byte>, pad: Block)
    requires |plain| > 16
    ensures XorBlocks(XorBlocks(checksum, plain[..16]), Sum(plain[16..], pad)) == XorBlocks(checksum, Sum(plain, pad))
  {
    hide Xor;
    FullBlocksRest(plain);
    var rest := plain[16..];
    var used := |plain| - 16 * FullBlocks(|plain|);
    forall j | 0 <= j < 16
      ensures XorBlocks(XorBlocks(checksum, plain[..16]), Sum(rest, pad))[j] == XorBlocks(checksum, Sum(plain, pad))[j]
    {
      var fill := if j < used then 0 else pad[j];
      XorAssociates(plain[j], Column(rest, j), fill);
      XorAssociates(checksum[j], plain[j], Sum(rest, pad)[j]);
    }
  }

  lemma {:induction false} TagSealed(c: Cipher, delta: Block, checksum: Block, plain: seq<Byte>)
    ensures var d := Offset(delta, FullBlocks(|plain|) + 1);
            SealFrom(c, delta, checksum, plain).tag ==
            c.encrypt(XorBlocks(XorBlocks(checksum, Sum(plain, LastPad(c, delta, |plain|))), XorBlocks(d, Doubled(d))))
    decreases |plain|
  {
    hide XorBlocks, Doubled, Pad, Sum;
    var d, pad := Doubled(delta), LastPad(c, delta, |plain|);
    if |plain| > 16 {
      TagSealed(c, d, XorBlocks(checksum, plain[..16]), plain[16..]);
      FullBlocksRest(plain);
      LastPadRest(c, delta, |plain|);
      OffsetOfDoubled(delta, FullBlocks(|plain| - 16) + 1);
      SumOfRest(checksum, plain, pad);
    } else {
      assert Offset(delta, 1) == Doubled(Offset(delta, 0));
      SumOfChunk(plain, pad);
    }
  }

  lemma ZeroSum(b: Block)
    ensures XorBlocks(ZERO_BLOCK, b) == b
  {
    hide Xor;
    forall i | 0 <= i < 16 ensures XorBlocks(ZERO_BLOCK, b)[i] == b[i] { XorZero(b[i]); }
  }

  /** For every cipher, nonce and text the recursion over blocks computes the closed form. */
  lemma SealIsOcb2(c: Cipher, nonce: Block, plain: seq<Byte>)
    ensures IsOcb2(c, nonce, plain, Seal(c, nonce, plain))
  {
    hide SealFrom, Sum, Offset, XPower, LengthBlock, ToBigEndian, XorBlocks, Xor, Doubled;
    var l, k := c.encrypt(nonce), FullBlocks(|plain|);
    var text := Seal(c, nonce, plain).text;
    LengthIsBits(|plain| - 16 * k);
    OffsetIsPower(l, k + 1);
    OffsetNext(l, k + 1);
    OffsetIsPower(l, k + 2);
    forall i | 0 <= i < k
      ensures BlockAt(text, i) ==
              XorBlocks(XPower(l, i + 1), c.encrypt(XorBlocks(XPower(l, i + 1), BlockAt(plain, i))))
    {
      OffsetIsPower(l, i + 1);
      BlocksSealed(c, l, ZERO_BLOCK, plain, i);
    }
    var pad := LastPad(c, l, |plain|);
    forall j | 16 * k <= j < |plain| ensures text[j] == XorByte(plain[j], pad[j - 16 * k]) {
      ChunkSealed(c, l, ZERO_BLOCK, plain, j);
    }
    TagSealed(c, l, ZERO_BLOCK, plain);
    ZeroSum(Sum(plain, pad));
  }

  lemma OffsetNext(l: Block, i: nat)
    ensures Offset(l, i + 1) == Doubled(Offset(l, i))
  {
  }

  lemma SameText(k: nat, a: seq<Byte>, b: seq<Byte>)
    requires |a| == |b| && 16 * k <= |a|
    requires forall i :: 0 <= i < k ==> BlockAt(a, i) == BlockAt(b, i)
    requires forall j :: 16 * k <= j < |a| ==> a[j] == b[j]
    ensures a == b
  {
    forall j | 0 <= j < |a| ensures a[j] == b[j] {
      if j < 16 * k {
        assert BlockAt(a, j / 16)[j % 16] == BlockAt(b, j / 16)[j % 16];
      }
    }
  }

  /** The closed form has one solution, so sealing is exactly it. */
  lemma SealIff(c: Cipher, nonce: Block, plain: seq<Byte>, out: Processed)
    ensures out == Seal(c, nonce, plain) <==> IsOcb2(c, nonce, plain, out)
  {
    hide Seal, Sum, XPower, ToBigEndian, XorBlocks, XorByte, BlockAt;
    SealIsOcb2(c, nonce, plain);
    if IsOcb2(c, nonce, plain, out) {
      SameText(FullBlocks(|plain|), out.text, Seal(c, nonce, plain).text);
    }
  }

  /** And opening yields the text whose closed form is the ciphertext, and its tag. */
  lemma OpenIff(c: Cipher, nonce: Block, encrypted: seq<Byte>, out: Processed)
    requires IsPermutation(c)
    ensures out == Open(c, nonce, encrypted) <==> IsOcb2(c, nonce, out.text, Processed(encrypted, out.tag))
  {
    hide Seal, Open, IsOcb2;
    var o := Open(c, nonce, encrypted);
    SealUndoesOpen(c, nonce, encrypted);
    SealIff(c, nonce, out.text, Processed(encrypted, out.tag));
    OpenUndoesSeal(c, nonce, out.text);
  }

  // -- What the tag depends on ---------------------------------------------------------------

  /** The exclusive ors of the blocks agree, short chunks counting as filled with zeros. */
  predicate SameColumns(p: seq<Byte>, q: seq<Byte>) {
    forall j: nat :: j < 16 ==> Column(p, j) == Column(q, j)
  }

  lemma SumAt(p: seq<Byte>, pad: Block, j: nat)
    requires j < 16
    ensures var fill := if j < |p| - 16 * FullBlocks(|p|) then 0 else pad[j];
            Sum(p, pad)[j] == XorByte(Column(p, j), fill) && XorByte(Sum(p, pad)[j], fill) == Column(p, j)
  {
    hide Xor, Column;
    XorCancels(Column(p, j), if j < |p| - 16 * FullBlocks(|p|) then 0 else pad[j]);
  }

  lemma SumsEqualIff(p: seq<Byte>, q: seq<Byte>, pad: Block)
    requires |p| == |q|
    ensures Sum(p, pad) == Sum(q, pad) <==> SameColumns(p, q)
  {
    hide Sum, Column, XorByte;
    forall j: nat | j < 16 ensures Sum(p, pad)[j] == Sum(q, pad)[j] <==> Column(p, j) == Column(q, j) {
      SumAt(p, pad, j);
      SumAt(q, pad, j);
    }
  }

  /** Under one nonce and for one length, two texts have the same tag if and only if the
      exclusive ors of their blocks agree. */
  lemma TagsEqualIff(c: Cipher, nonce: Block, p: seq<Byte>, q: seq<Byte>)
    requires IsPermutation(c) && |p| == |q|
    ensures Seal(c, nonce, p).tag == Seal(c, nonce, q).tag <==> SameColumns(p, q)
  {
    hide SealFrom, Sum, SameColumns, Doubled, XorBlocks, LastPad;
    var l, n := c.encrypt(nonce), |p|;
    var pad := LastPad(c, l, n);
    var d := Offset(l, FullBlocks(n) + 1);
    var three := XorBlocks(d, Doubled(d));
    TagSealed(c, l, ZERO_BLOCK, p);
    TagSealed(c, l, ZERO_BLOCK, q);
    ZeroSum(Sum(p, pad));
    ZeroSum(Sum(q, pad));
    XorBlocksCancel(Sum(p, pad), three);
    XorBlocksCancel(Sum(q, pad), three);
    EncryptInjective(c, XorBlocks(Sum(p, pad), three), XorBlocks(Sum(q, pad), three));
    SumsEqualIff(p, q, pad);
  }

  lemma EncryptInjective(c: Cipher, a: Block, b: Block)
    requires IsPermutation(c)
    ensures c.encrypt(a) == c.encrypt(b) <==> a == b
  {
    assert c.decrypt(c.encrypt(a)) == a && c.decrypt(c.encrypt(b)) == b;
  }

  lemma {:induction false} ColumnNotices(text: seq<Byte>, n: nat, b: Byte)
    requires n < |text| && b != text[n]
    ensures Column(text[n := b], n % 16) != Column(text, n % 16)
    decreases |text|
  {
    hide Xor;
    var changed, j := text[n := b], n % 16;
    if |text| > 16 {
      if n < 16 {
        assert changed[16..] == text[16..];
        XorCancels(b, Column(text[16..], j));
        XorCancels(text[n], Column(text[16..], j));
      } else {
        assert changed[16..] == text[16..][n - 16 := b];
        ColumnNotices(text[16..], n - 16, b);
        XorCancels(Column(text[16..], j), text[j]);
        XorCancels(Column(changed[16..], j), text[j]);
        XorCommutes(text[j], Column(text[16..], j));
        XorCommutes(text[j], Column(changed[16..], j));
      }
    }
  }

  /** In particular a change of one byte, wherever it is, changes the tag. */
  lemma OneByteChangesTag(c: Cipher, nonce: Block, plain: seq<Byte>, n: nat, b: Byte)
    requires IsPermutation(c) && n < |plain| && b != plain[n]
    ensures Seal(c, nonce, plain[n := b]).tag != Seal(c, nonce, plain).tag
  {
    hide Seal, Column;
    TagsEqualIff(c, nonce, plain[n := b], plain);
    ColumnNotices(plain, n, b);
  }
}
