/** OCB2 over an arbitrary block permutation, in Mumble's variant. */
module Ocb2Mode {
  import opened Bytes
  import opened Ocb2Block

  /** A keyed block cipher. */
  datatype Cipher = Cipher(encrypt: Block -> Block, decrypt: Block -> Block)

  ghost predicate IsPermutation(c: Cipher) {
    && (forall b: Block :: c.decrypt(c.encrypt(b)) == b)
    && (forall b: Block :: c.encrypt(c.decrypt(b)) == b)
  }

  /** Text of the same length as the input, and the full 16-byte tag. */
  datatype Processed = Processed(text: seq<Byte>, tag: Block)

  // -- The mode as recursion over blocks ---------------------------------

  /** The bit length of the last chunk, big endian in the last four bytes. */
  function LengthBlock(remaining: nat): (r: Block)
    requires remaining <= 16
  {
    var bits := remaining * 8;
    seq(12, i => 0) + [bits / 0x100_0000 % 256, bits / 0x1_0000 % 256, bits / 0x100 % 256, bits % 256]
  }

  function Pad(c: Cipher, delta: Block, remaining: nat): (r: Block)
    requires remaining <= 16
  {
    c.encrypt(XorBlocks(LengthBlock(remaining), delta))
  }

  function Tag(c: Cipher, delta: Block, checksum: Block): (r: Block) {
    c.encrypt(XorBlocks(checksum, Tripled(delta)))
  }

  function SealFrom(c: Cipher, delta: Block, checksum: Block, plain: seq<Byte>): (r: Processed)
    ensures |r.text| == |plain|
    decreases |plain|
  {
    var d := Doubled(delta);
    if |plain| > 16 then
      var block: Block := plain[..16];
      var rest := SealFrom(c, d, XorBlocks(checksum, block), plain[16..]);
      Processed(XorBlocks(d, c.encrypt(XorBlocks(d, block))) + rest.text, rest.tag)
    else
      var pad := Pad(c, d, |plain|);
      var last: Block := plain + pad[|plain|..];
      Processed(XorBlocks(pad, last)[..|plain|], Tag(c, d, XorBlocks(checksum, last)))
  }

  function OpenFrom(c: Cipher, delta: Block, checksum: Block, encrypted: seq<Byte>): (r: Processed)
    ensures |r.text| == |encrypted|
    decreases |encrypted|
  {
    var d := Doubled(delta);
    if |encrypted| > 16 then
      var block := XorBlocks(d, c.decrypt(XorBlocks(d, encrypted[..16])));
      var rest := OpenFrom(c, d, XorBlocks(checksum, block), encrypted[16..]);
      Processed(block + rest.text, rest.tag)
    else
      var padded: Block := encrypted + seq(16 - |encrypted|, i => 0);
      var last := XorBlocks(padded, Pad(c, d, |encrypted|));
      Processed(last[..|encrypted|], Tag(c, d, XorBlocks(checksum, last)))
  }

  function Seal(c: Cipher, nonce: Block, plain: seq<Byte>): (r: Processed)
    ensures |r.text| == |plain|
  {
    SealFrom(c, c.encrypt(nonce), ZERO_BLOCK, plain)
  }

  function Open(c: Cipher, nonce: Block, encrypted: seq<Byte>): (r: Processed)
    ensures |r.text| == |encrypted|
  {
    OpenFrom(c, c.encrypt(nonce), ZERO_BLOCK, encrypted)
  }

  // -- The source's loops refine it ----------------------------------------

  /** One full block of `ocb_encrypt`'s loop. */
  method EncryptBlock(c: Cipher, plain: seq<Byte>, encrypted: array<Byte>, offset: nat,
                      delta: array<Byte>, checksum: array<Byte>)
    requires offset + 16 < |plain| == encrypted.Length
    requires delta.Length == checksum.Length == 16
    requires delta != checksum && encrypted != delta && encrypted != checksum
    modifies encrypted, delta, checksum
    ensures encrypted[..offset] == old(encrypted[..offset])
    ensures var rest := SealFrom(c, delta[..], checksum[..], plain[offset + 16..]);
            SealFrom(c, old(delta[..]), old(checksum[..]), plain[offset..]) ==
            Processed(encrypted[offset..offset + 16] + rest.text, rest.tag)
  {
    hide Xor, XorBlocks, Doubled;
    S2(delta);
    var block: Block := plain[offset..offset + 16];
    var out := XorBlocks(delta[..], c.encrypt(XorBlocks(delta[..], block)));
    CopyInto(encrypted, offset, out);
    XorInPlace(checksum, block);
    assert plain[offset..][..16] == block && plain[offset..][16..] == plain[offset + 16..];
    assert encrypted[offset..offset + 16] == out;
  }

  /** The final chunk of `ocb_encrypt`, of 0 to 16 bytes. */
  method EncryptLast(c: Cipher, plain: seq<Byte>, encrypted: array<Byte>, offset: nat,
                     delta: array<Byte>, checksum: array<Byte>)
    requires offset <= |plain| == encrypted.Length && |plain| - offset <= 16
    requires delta.Length == checksum.Length == 16
    requires delta != checksum && encrypted != delta && encrypted != checksum
    modifies encrypted, delta, checksum
    ensures Processed(encrypted[..], Tag(c, delta[..], checksum[..])) ==
            var rest := SealFrom(c, old(delta[..]), old(checksum[..]), plain[offset..]);
            Processed(old(encrypted[..offset]) + rest.text, rest.tag)
  {
    hide Xor, XorBlocks, Doubled, Tag;
    var remaining := |plain| - offset;
    S2(delta);
    var pad := Pad(c, delta[..], remaining);
    var last: Block := plain[offset..] + pad[remaining..];
    XorInPlace(checksum, last);
    CopyInto(encrypted, offset, XorBlocks(pad, last)[..remaining]);
  }

  method OcbEncrypt(c: Cipher, plain: seq<Byte>, encrypted: array<Byte>, nonce: Block, tag: array<Byte>)
    requires encrypted.Length == |plain| && tag.Length == 16 && encrypted != tag
    modifies encrypted, tag
    ensures Processed(encrypted[..], tag[..]) == Seal(c, nonce, plain)
  {
    hide SealFrom, Tag;
    var delta := FromBlock(c.encrypt(nonce));
    var checksum := FromBlock(ZERO_BLOCK);
    var offset, remaining := 0, |plain|;
    while remaining > 16
      invariant offset >= 0 && remaining >= 0 && offset + remaining == |plain|
      invariant var rest := SealFrom(c, delta[..], checksum[..], plain[offset..]);
                Seal(c, nonce, plain) == Processed(encrypted[..offset] + rest.text, rest.tag)
    {
      ghost var before := encrypted[..offset];
      EncryptBlock(c, plain, encrypted, offset, delta, checksum);
      assert encrypted[..offset + 16] == before + encrypted[offset..offset + 16];
      offset, remaining := offset + 16, remaining - 16;
    }
    EncryptLast(c, plain, encrypted, offset, delta, checksum);
    WriteTag(c, delta, checksum, tag);
  }

  /** One full block of `ocb_decrypt`'s loop. */
  method DecryptBlock(c: Cipher, encrypted: seq<Byte>, plain: array<Byte>, offset: nat,
                      delta: array<Byte>, checksum: array<Byte>)
    requires offset + 16 < |encrypted| == plain.Length
    requires delta.Length == checksum.Length == 16
    requires delta != checksum && plain != delta && plain != checksum
    modifies plain, delta, checksum
    ensures plain[..offset] == old(plain[..offset])
    ensures var rest := OpenFrom(c, delta[..], checksum[..], encrypted[offset + 16..]);
            OpenFrom(c, old(delta[..]), old(checksum[..]), encrypted[offset..]) ==
            Processed(plain[offset..offset + 16] + rest.text, rest.tag)
  {
    hide Xor, XorBlocks, Doubled;
    S2(delta);
    var block := XorBlocks(delta[..], c.decrypt(XorBlocks(delta[..], encrypted[offset..offset + 16])));
    CopyInto(plain, offset, block);
    XorInPlace(checksum, block);
    assert encrypted[offset..][..16] == encrypted[offset..offset + 16];
    assert encrypted[offset..][16..] == encrypted[offset + 16..];
    assert plain[offset..offset + 16] == block;
  }

  /** The final chunk of `ocb_decrypt`, of 0 to 16 bytes. */
  method DecryptLast(c: Cipher, encrypted: seq<Byte>, plain: array<Byte>, offset: nat,
                     delta: array<Byte>, checksum: array<Byte>)
    requires offset <= |encrypted| == plain.Length && |encrypted| - offset <= 16
    requires delta.Length == checksum.Length == 16
    requires delta != checksum && plain != delta && plain != checksum
    modifies plain, delta, checksum
    ensures Processed(plain[..], Tag(c, delta[..], checksum[..])) ==
            var rest := OpenFrom(c, old(delta[..]), old(checksum[..]), encrypted[offset..]);
            Processed(old(plain[..offset]) + rest.text, rest.tag)
  {
    hide Xor, XorBlocks, Doubled, Tag;
    var remaining := |encrypted| - offset;
    S2(delta);
    var padded: Block := encrypted[offset..] + seq(16 - remaining, i => 0);
    var last := XorBlocks(padded, Pad(c, delta[..], remaining));
    CopyInto(plain, offset, last[..remaining]);
    XorInPlace(checksum, last);
  }

  method OcbDecrypt(c: Cipher, encrypted: seq<Byte>, plain: array<Byte>, nonce: Block, tag: array<Byte>)
    requires plain.Length == |encrypted| && tag.Length == 16 && plain != tag
    modifies plain, tag
    ensures Processed(plain[..], tag[..]) == Open(c, nonce, encrypted)
  {
    hide OpenFrom, Tag;
    var delta := FromBlock(c.encrypt(nonce));
    var checksum := FromBlock(ZERO_BLOCK);
    var offset, remaining := 0, |encrypted|;
    while remaining > 16
      invariant offset >= 0 && remaining >= 0 && offset + remaining == |encrypted|
      invariant var rest := OpenFrom(c, delta[..], checksum[..], encrypted[offset..]);
                Open(c, nonce, encrypted) == Processed(plain[..offset] + rest.text, rest.tag)
    {
      ghost var before := plain[..offset];
      DecryptBlock(c, encrypted, plain, offset, delta, checksum);
      assert plain[..offset + 16] == before + plain[offset..offset + 16];
      offset, remaining := offset + 16, remaining - 16;
    }
    DecryptLast(c, encrypted, plain, offset, delta, checksum);
    WriteTag(c, delta, checksum, tag);
  }

  method WriteTag(c: Cipher, delta: array<Byte>, checksum: array<Byte>, tag: array<Byte>)
    requires delta.Length == checksum.Length == tag.Length == 16
    requires delta != checksum && delta != tag && checksum != tag
    modifies delta, checksum, tag
    ensures tag[..] == Tag(c, old(delta[..]), old(checksum[..]))
  {
    hide Xor, XorBlocks, Tripled;
    S3(delta);
    XorInPlace(checksum, delta[..]);
    CopyInto(tag, 0, c.encrypt(checksum[..]));
    assert tag[..] == c.encrypt(checksum[..]);
  }

  method FromBlock(b: Block) returns (a: array<Byte>)
    ensures fresh(a) && a.Length == 16 && a[..] == b
  {
    a := new Byte[16](i requires 0 <= i < 16 => b[i]);
  }

  method CopyInto(a: array<Byte>, offset: nat, s: seq<Byte>)
    requires offset + |s| <= a.Length
    modifies a
    ensures a[..] == old(a[..offset]) + s + old(a[offset + |s|..])
  {
    for i := 0 to |s|
      invariant forall k :: 0 <= k < a.Length ==>
        a[k] == if offset <= k < offset + i then s[k - offset] else old(a[k])
    {
      a[offset + i] := s[i];
    }
  }

  // -- Opening undoes sealing, and sealing undoes opening -------------------

  lemma LastChunkRoundTrip(pad: Block, text: seq<Byte>)
    requires |text| <= 16
    ensures var last: Block := text + pad[|text|..];
            var out := XorBlocks(pad, last)[..|text|];
            XorBlocks(out + seq(16 - |text|, i => 0), pad) == last
  {
    hide Xor;
    var n := |text|;
    var last: Block := text + pad[n..];
    var padded: Block := XorBlocks(pad, last)[..n] + seq(16 - n, i => 0);
    forall i | 0 <= i < 16 ensures XorBlocks(padded, pad)[i] == last[i] {
      if i < n {
        XorCommutes(pad[i], last[i]);
        XorCancels(last[i], pad[i]);
      } else {
        XorZero(pad[i]);
      }
    }
  }

  lemma {:induction false} OpenFromUndoesSealFrom(c: Cipher, delta: Block, checksum: Block, plain: seq<Byte>)
    requires IsPermutation(c)
    ensures var s := SealFrom(c, delta, checksum, plain);
            OpenFrom(c, delta, checksum, s.text) == Processed(plain, s.tag)
    decreases |plain|
  {
    hide Xor, XorBlocks, Doubled, Tag, Pad;
    var d := Doubled(delta);
    var s := SealFrom(c, delta, checksum, plain);
    if |plain| > 16 {
      var block: Block := plain[..16];
      var mixed := XorBlocks(d, block);
      OpenFromUndoesSealFrom(c, d, XorBlocks(checksum, block), plain[16..]);
      assert s.text[..16] == XorBlocks(d, c.encrypt(mixed));
      assert s.text[16..] == SealFrom(c, d, XorBlocks(checksum, block), plain[16..]).text;
      XorBlocksCancel(c.encrypt(mixed), d);
      XorBlocksCancel(block, d);
      assert plain == block + plain[16..];
    } else {
      LastChunkRoundTrip(Pad(c, d, |plain|), plain);
    }
  }

  lemma {:induction false} SealFromUndoesOpenFrom(c: Cipher, delta: Block, checksum: Block, encrypted: seq<Byte>)
    requires IsPermutation(c)
    ensures var o := OpenFrom(c, delta, checksum, encrypted);
            SealFrom(c, delta, checksum, o.text) == Processed(encrypted, o.tag)
    decreases |encrypted|
  {
    hide Xor, XorBlocks, Doubled, Tag, Pad;
    var d := Doubled(delta);
    var o := OpenFrom(c, delta, checksum, encrypted);
    if |encrypted| > 16 {
      var mixed := XorBlocks(d, encrypted[..16]);
      var block := XorBlocks(d, c.decrypt(mixed));
      SealFromUndoesOpenFrom(c, d, XorBlocks(checksum, block), encrypted[16..]);
      assert o.text[..16] == block;
      assert o.text[16..] == OpenFrom(c, d, XorBlocks(checksum, block), encrypted[16..]).text;
      XorBlocksCancel(c.decrypt(mixed), d);
      XorBlocksCancel(encrypted[..16], d);
      assert encrypted == encrypted[..16] + encrypted[16..];
    } else {
      LastChunkReverse(Pad(c, d, |encrypted|), encrypted);
    }
  }

  lemma LastChunkReverse(pad: Block, encrypted: seq<Byte>)
    requires |encrypted| <= 16
    ensures var padded: Block := encrypted + seq(16 - |encrypted|, i => 0);
            var last := XorBlocks(padded, pad);
            last[..|encrypted|] + pad[|encrypted|..] == last &&
            XorBlocks(pad, last)[..|encrypted|] == encrypted
  {
    hide Xor;
    var n := |encrypted|;
    var padded: Block := encrypted + seq(16 - n, i => 0);
    var last := XorBlocks(padded, pad);
    forall i | 0 <= i < 16
      ensures (last[..n] + pad[n..])[i] == last[i] && (i < n ==> XorBlocks(pad, last)[i] == encrypted[i])
    {
      if i < n {
        XorCommutes(pad[i], last[i]);
        XorCancels(padded[i], pad[i]);
      } else {
        XorZero(pad[i]);
      }
    }
  }

  /** Open-after-seal: for every permutation, nonce and length, plaintext and tag come back. */
  lemma OpenUndoesSeal(c: Cipher, nonce: Block, plain: seq<Byte>)
    requires IsPermutation(c)
    ensures Open(c, nonce, Seal(c, nonce, plain).text) == Processed(plain, Seal(c, nonce, plain).tag)
  {
    OpenFromUndoesSealFrom(c, c.encrypt(nonce), ZERO_BLOCK, plain);
  }

  /** Seal-after-open, so that under one nonce the two are mutually inverse on texts. */
  lemma SealUndoesOpen(c: Cipher, nonce: Block, encrypted: seq<Byte>)
    requires IsPermutation(c)
    ensures Seal(c, nonce, Open(c, nonce, encrypted).text) == Processed(encrypted, Open(c, nonce, encrypted).tag)
  {
    SealFromUndoesOpenFrom(c, c.encrypt(nonce), ZERO_BLOCK, encrypted);
  }
}
