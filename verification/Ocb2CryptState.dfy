/** The crypt state object: byte arrays updated in place, refining the
    integer-nonce state machine. */
module Ocb2CryptState {
  import opened Bytes
  import opened Ocb2Block
  import opened Ocb2Mode
  import opened Ocb2Receiver
  import opened Ocb2Stream

  // -- Nonces as bytes ---------------------------------------------------------

  lemma NonceBytes(s: seq<Byte>)
    requires |s| == 16
    ensures LittleEndian(s) < NONCES && NonceBlock(LittleEndian(s)) == s
    ensures s[0] == Low(LittleEndian(s)) && s[1] == High(LittleEndian(s))
  {
    NoncesIsPow2();
    LittleEndianBound(s);
    LittleEndianRoundTrip(s);
    var t := s[1..];
    assert LittleEndian(s) == s[0] + 256 * LittleEndian(t);
    assert LittleEndian(t) == t[0] + 256 * LittleEndian(t[1..]);
  }

  lemma NonceNext(s: seq<Byte>)
    requires |s| == 16
    ensures LittleEndian(Incremented(s)) == (LittleEndian(s) + 1) % NONCES
    ensures s[0] == 255 ==> Incremented(s) == [0] + Incremented(s[1..])
    ensures s[0] < 255 ==> Incremented(s) == s[0 := s[0] + 1]
  {
    hide LittleEndian, Pow2, NONCES;
    NoncesIsPow2();
    IncrementedValue(s);
    LittleEndianBound(s);
    Wrapped(LittleEndian(s));
    assert s[0] < 255 ==> s[0 := s[0] + 1] == [s[0] + 1] + s[1..];
  }

  lemma Wrapped(n: nat)
    requires n < NONCES
    ensures (n + 1) % NONCES == if n + 1 == NONCES then 0 else n + 1
  {
  }

  lemma NonceWithLow(s: seq<Byte>, b: Byte)
    requires |s| == 16
    ensures LittleEndian(s[0 := b]) == LittleEndian(s) - s[0] + b
  {
    assert s[0 := b][1..] == s[1..];
  }

  class Ocb2CryptState {
    /** The key schedule: any family of block ciphers. */
    const newCipher: seq<Byte> -> Cipher
    var cipher: Cipher
    var rawKey: seq<Byte>
    const encryptIv: array<Byte>
    const decryptIv: array<Byte>
    const decryptHistory: array<Byte>
    var stats: Stats
    var initialized: bool

    ghost predicate Valid()
      reads this
    {
      && encryptIv.Length == decryptIv.Length == 16 && decryptHistory.Length == 256
      && encryptIv != decryptIv && encryptIv != decryptHistory && decryptIv != decryptHistory
    }

    /** The receiving half, nonce read as an integer. */
    ghost function Receiver(): (s: Link)
      reads this, decryptIv, decryptHistory
      requires Valid()
      ensures s.Valid()
    {
      NonceBytes(decryptIv[..]);
      Link(LittleEndian(decryptIv[..]), decryptHistory[..], stats)
    }

    /** The last nonce sealed under, as an integer. */
    ghost function SendNonce(): (n: nat)
      reads this, encryptIv
      requires Valid()
    {
      LittleEndian(encryptIv[..])
    }

    constructor (newCipher: seq<Byte> -> Cipher)
      ensures Valid() && fresh(encryptIv) && fresh(decryptIv) && fresh(decryptHistory)
      ensures !initialized && stats == NO_STATS && this.newCipher == newCipher
    {
      this.newCipher := newCipher;
      cipher := newCipher(ZERO_BLOCK);
      rawKey := ZERO_BLOCK;
      encryptIv := new Byte[16](i => 0);
      decryptIv := new Byte[16](i => 0);
      decryptHistory := new Byte[256](i => 0);
      stats := NO_STATS;
      initialized := false;
    }

    method SetKey(key: seq<Byte>, clientNonce: seq<Byte>, serverNonce: seq<Byte>) returns (ok: bool)
      requires Valid()
      modifies this, encryptIv, decryptIv, decryptHistory
      ensures Valid() && stats == old(stats)
      ensures ok <==> |key| == |clientNonce| == |serverNonce| == 16
      ensures ok ==> initialized && rawKey == key && cipher == newCipher(key)
      ensures ok ==> SendNonce() == LittleEndian(clientNonce)
      ensures ok ==> LittleEndian(serverNonce) < NONCES && Receiver() == Keyed(LittleEndian(serverNonce), stats)
      ensures !ok ==> Receiver() == old(Receiver()) && SendNonce() == old(SendNonce())
      ensures !ok ==> initialized == old(initialized) && rawKey == old(rawKey) && cipher == old(cipher)
    {
      if |key| != 16 || |clientNonce| != 16 || |serverNonce| != 16 {
        return false;
      }
      rawKey := key;
      CopyInto(encryptIv, 0, clientNonce);
      CopyInto(decryptIv, 0, serverNonce);
      cipher := newCipher(key);
      for i := 0 to 256
        modifies decryptHistory
        invariant forall k :: 0 <= k < i ==> decryptHistory[k] == 255 - serverNonce[1]
      {
        decryptHistory[i] := 255 - serverNonce[1];
      }
      initialized := true;
      NonceBytes(serverNonce);
      assert encryptIv[..] == clientNonce && decryptIv[..] == serverNonce;
      assert decryptHistory[..] == Keyed(LittleEndian(serverNonce), stats).history;
      return true;
    }

    method SetDecryptIv(serverNonce: seq<Byte>)
      requires Valid()
      modifies decryptIv
      ensures Valid()
      ensures |serverNonce| == 16 ==>
                LittleEndian(serverNonce) < NONCES &&
                Receiver() == Step(old(Receiver()), Resync(LittleEndian(serverNonce)))
      ensures |serverNonce| != 16 ==> Receiver() == old(Receiver())
    {
      if |serverNonce| == 16 {
        CopyInto(decryptIv, 0, serverNonce);
        NonceBytes(serverNonce);
        assert decryptIv[..] == serverNonce;
      }
    }

    method Encrypt(plain: seq<Byte>) returns (r: Result<seq<Byte>>)
      requires Valid()
      modifies encryptIv
      ensures Valid()
      ensures !initialized ==> r == Err && SendNonce() == old(SendNonce())
      ensures initialized ==> SendNonce() == (old(SendNonce()) + 1) % NONCES
      ensures initialized ==> r == Ok(SentPacket(cipher, SendNonce(), plain))
    {
      hide Seal, LittleEndian, Incremented;
      if !initialized {
        return Err;
      }
      NonceNext(encryptIv[..]);
      assert encryptIv[..] == encryptIv[0..] && encryptIv[..0] == [];
      IncrementFrom(encryptIv, 0);
      assert encryptIv[..] == Incremented(old(encryptIv[..]));
      NonceBytes(encryptIv[..]);
      var tag := new Byte[16](i => 0);
      var ciphertext := new Byte[|plain|](i => 0);
      OcbEncrypt(cipher, plain, ciphertext, encryptIv[..], tag);
      r := Ok([encryptIv[0], tag[0], tag[1], tag[2]] + ciphertext[..]);
      assert tag[..][..3] == [tag[0], tag[1], tag[2]];
      assert [encryptIv[0], tag[0], tag[1], tag[2]] == [encryptIv[0]] + tag[..][..3];
    }

    /** Move `decryptIv` to the nonce a packet with this header byte claims. */
    method Claim(iv: Byte) returns (inRange: bool, late: int, lost: int, restore: bool)
      requires Valid()
      modifies decryptIv
      ensures var n := old(LittleEndian(decryptIv[..]));
              var arrival := Classify(Low(n), iv);
              && inRange == (arrival != OutOfRange)
              && (inRange ==> Candidate(n, iv) == Some(LittleEndian(decryptIv[..])))
              && (!inRange ==> decryptIv[..] == old(decryptIv[..]))
              && restore == (arrival == Late)
              && late == (if arrival == Late then 1 else 0)
              && lost == (match arrival case Late => -1 case Skipped(m) => m case _ => 0)
    {
      hide LittleEndian, Incremented;
      ghost var was := decryptIv[..];
      var current: int := decryptIv[0];
      inRange, late, lost, restore := true, 0, 0, false;
      NonceBytes(was);
      NonceNext(was);
      NonceWithLow(was, iv);
      if (current + 1) % 256 == iv {
        decryptIv[0] := iv;
        if iv < current {
          assert decryptIv[..1] == [0] && decryptIv[1..] == was[1..];
          IncrementFrom(decryptIv, 1);
        }
        assert decryptIv[..] == Incremented(was);
      } else {
        var diff: int := iv - current;
        if diff > 128 {
          diff := diff - 256;
        } else if diff < -128 {
          diff := diff + 256;
        }
        if iv < current && diff > -30 && diff < 0 {
          late, lost, restore := 1, -1, true;
          decryptIv[0] := iv;
          assert decryptIv[..] == was[0 := iv];
        } else if iv > current && diff > 0 && diff < 30 {
          lost := iv - current - 1;
          decryptIv[0] := iv;
          assert decryptIv[..] == was[0 := iv];
        } else {
          inRange := false;
        }
      }
    }

    method CountAccepted(late: int, lost: int, ghost arrival: Arrival)
      requires late == (if arrival == Late then 1 else 0)
      requires lost == (match arrival case Late => -1 case Skipped(m) => m case _ => 0)
      modifies this`stats
      ensures stats == Counted(old(stats), arrival)
    {
      stats := stats.(good := stats.good + 1);
      if late > 0 {
        stats := stats.(late := stats.late + late);
      }
      var magnitude := if lost < 0 then -lost else lost;
      if lost > 0 {
        stats := stats.(lost := stats.lost + lost);
      } else if stats.late > magnitude {
        stats := stats.(late := stats.late - magnitude);
      }
    }

    method Decrypt(data: seq<Byte>) returns (r: Result<seq<Byte>>)
      requires Valid()
      modifies this`stats, decryptIv, decryptHistory
      ensures Valid()
      ensures !initialized ==> r == Err && Receiver() == old(Receiver())
      ensures initialized ==>
                var e := Receive(cipher, old(Receiver()), data);
                Receiver() == e.link && r == (if e.plain.Some? then Ok(e.plain.value) else Err)
    {
      hide Open, LittleEndian, Classify, Counted, High, Low;
      if !initialized || |data| < 4 {
        return Err;
      }
      var iv, ciphertext := data[0], data[4..];
      var saveIv := decryptIv[..];
      ghost var s := Receiver();
      NonceBytes(saveIv);
      var inRange, late, lost, restore := Claim(iv);
      if !inRange {
        assert decryptIv[..] == saveIv;
        return Err;
      }
      ghost var claimed := LittleEndian(decryptIv[..]);
      CandidateRange(s.nonce, iv);
      NonceBytes(decryptIv[..]);
      assert decryptIv[0] == iv;
      if decryptHistory[decryptIv[0]] == decryptIv[1] {
        Restore(saveIv);
        return Err;
      }
      var tag := new Byte[16](i => 0);
      var plaintext := new Byte[|ciphertext|](i => 0);
      OcbDecrypt(cipher, ciphertext, plaintext, decryptIv[..], tag);
      ghost var whole := Open(cipher, NonceBlock(claimed), ciphertext);
      assert whole == Processed(plaintext[..], tag[..]);
      assert tag[..][..3] == [tag[0], tag[1], tag[2]] && data[1..4] == [data[1], data[2], data[3]];
      if tag[0] != data[1] || tag[1] != data[2] || tag[2] != data[3] {
        assert !Verdict(cipher, s, data) by { SameThree(whole.tag[..3], data[1..4], tag[..], data); }
        Restore(saveIv);
        return Err;
      }
      decryptHistory[decryptIv[0]] := decryptIv[1];
      if restore {
        Restore(saveIv);
      }
      CountAccepted(late, lost, Classify(Low(s.nonce), iv));
      r := Ok(plaintext[..]);
      assert decryptHistory[..] == s.history[iv := High(claimed)];
    }

    method Restore(saveIv: seq<Byte>)
      requires Valid() && |saveIv| == 16
      modifies decryptIv
      ensures decryptIv[..] == saveIv
    {
      CopyInto(decryptIv, 0, saveIv);
      assert decryptIv[..] == saveIv;
    }
  }

  lemma SameThree(a: seq<Byte>, b: seq<Byte>, tag: seq<Byte>, data: seq<Byte>)
    requires |a| == |b| == 3 && |tag| == 16 && |data| >= 4
    requires a == [tag[0], tag[1], tag[2]] && b == [data[1], data[2], data[3]]
    ensures a == b <==> tag[0] == data[1] && tag[1] == data[2] && tag[2] == data[3]
  {
    assert a[0] == tag[0] && a[1] == tag[1] && a[2] == tag[2];
    assert b[0] == data[1] && b[1] == data[2] && b[2] == data[3];
  }
}
