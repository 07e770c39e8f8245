/** The denoiser's hop ring: fixed-size inference hidden behind buffers of any length. */
module Denoiser {
  import opened Bytes

  type Sample = real

  /** The hop size, and inference as a function of all hops it has been given; it
      yields one enhanced hop for the last of them (silence when it fails). */
  datatype Model = Model(hop: nat, infer: seq<seq<Sample>> -> seq<Sample>)
  {
    ghost predicate Valid() { hop > 0 && forall hs: seq<seq<Sample>> :: |infer(hs)| == hop }
  }

  datatype State = State(hops: seq<seq<Sample>>, ring: seq<Sample>, ready: seq<Sample>)

  const FRESH := State([], [], [])

  // -- One sample -----------------------------------------------------------------------

  function Pushed(m: Model, s: State, dry: Sample): (r: State)
  {
    var ring := s.ring + [dry];
    if |ring| >= m.hop then
      var hops := s.hops + [ring[..m.hop]];
      State(hops, ring[m.hop..], s.ready + m.infer(hops))
    else s.(ring := ring)
  }

  function Popped(s: State): (r: State) { if s.ready == [] then s else s.(ready := s.ready[1..]) }

  function Wet(s: State, dry: Sample): (w: Sample) { if s.ready == [] then dry else s.ready[0] }

  // -- Any number of samples ----------------------------------------------------------------

  function After(m: Model, s: State, xs: seq<Sample>): (r: State)
  {
    if xs == [] then s else Popped(Pushed(m, After(m, s, xs[..|xs| - 1]), xs[|xs| - 1]))
  }

  function Wets(m: Model, s: State, xs: seq<Sample>): (ws: seq<Sample>)
    ensures |ws| == |xs|
  {
    if xs == [] then []
    else
      var n, x := |xs| - 1, xs[|xs| - 1];
      Wets(m, s, xs[..n]) + [Wet(Pushed(m, After(m, s, xs[..n]), x), x)]
  }

  function Mixed(a: Sample, dry: Sample, wet: Sample): (out: Sample) { (1.0 - a) * dry + a * wet }

  /** Every sample has moved towards its wet value by a share of the distance. */
  predicate Moved(share: Sample, dry: seq<Sample>, wet: seq<Sample>, out: seq<Sample>) {
    && |dry| == |wet| == |out|
    && forall i :: 0 <= i < |dry| ==> out[i] - dry[i] == share * (wet[i] - dry[i])
  }

  lemma MixMoves(a: Sample, dry: seq<Sample>, wet: seq<Sample>, out: seq<Sample>)
    requires |dry| == |wet| == |out| && forall i :: 0 <= i < |dry| ==> out[i] == Mixed(a, dry[i], wet[i])
    ensures Moved(a, dry, wet, out)
  {
    forall i | 0 <= i < |dry| ensures out[i] - dry[i] == a * (wet[i] - dry[i]) {
      MixMovesOne(a, dry[i], wet[i]);
    }
  }

  lemma MixMovesOne(a: Sample, dry: Sample, wet: Sample)
    ensures Mixed(a, dry, wet) - dry == a * (wet - dry)
  {
  }

  lemma FullShare(dry: seq<Sample>, wet: seq<Sample>, out: seq<Sample>)
    requires Moved(1.0, dry, wet, out)
    ensures out == wet
  {
  }

  function Clamped(a: Sample): (c: Sample) { if a < 0.0 then 0.0 else if a > 1.0 then 1.0 else a }

  /** Buffer boundaries do not matter: processing two buffers in turn is processing
      their concatenation. */
  lemma {:induction false} SplitIndependent(m: Model, s: State, xs: seq<Sample>, ys: seq<Sample>)
    ensures After(m, s, xs + ys) == After(m, After(m, s, xs), ys)
    ensures Wets(m, s, xs + ys) == Wets(m, s, xs) + Wets(m, After(m, s, xs), ys)
    decreases |ys|
  {
    hide Pushed, Popped, Wet;
    if ys == [] {
      assert xs + ys == xs;
    } else {
      var n, zs := |ys| - 1, xs + ys;
      SplitIndependent(m, s, xs, ys[..n]);
      assert zs[..|zs| - 1] == xs + ys[..n] && zs[|zs| - 1] == ys[n];
    }
  }

  // -- The exact delay line -------------------------------------------------------------------

  /** Where hop number k starts: k times the hop size. */
  function Start(m: Model, k: nat): (n: nat)
  {
    if k == 0 then 0 else Start(m, k - 1) + m.hop
  }

  lemma {:induction false} StartIsMultiple(m: Model, k: nat)
    ensures Start(m, k) == k * m.hop
  {
    if k > 0 {
      StartIsMultiple(m, k - 1);
      assert k * m.hop == (k - 1) * m.hop + m.hop;
    }
  }

  /** The first k hops of a stream. */
  function Hops(m: Model, xs: seq<Sample>, k: nat): (hs: seq<seq<Sample>>)
    requires Start(m, k) <= |xs|
  {
    if k == 0 then []
    else Hops(m, xs, k - 1) + [xs[Start(m, k - 1)..Start(m, k)]]
  }

  /** The enhanced stream: the inference results for the first k hops, end to end. */
  function Enhanced(m: Model, xs: seq<Sample>, k: nat): (es: seq<Sample>)
    requires m.Valid() && Start(m, k) <= |xs|
    ensures |es| == Start(m, k)
  {
    if k == 0 then [] else Enhanced(m, xs, k - 1) + m.infer(Hops(m, xs, k))
  }

  lemma {:induction false} HopsPrefix(m: Model, xs: seq<Sample>, more: seq<Sample>, k: nat)
    requires Start(m, k) <= |xs|
    ensures Hops(m, xs + more, k) == Hops(m, xs, k)
  {
    if k > 0 {
      HopsPrefix(m, xs, more, k - 1);
      assert (xs + more)[Start(m, k - 1)..Start(m, k)] == xs[Start(m, k - 1)..Start(m, k)];
    }
  }

  /** The state after a stream of k full hops and r further samples. */
  ghost predicate Holds(m: Model, xs: seq<Sample>, s: State, k: nat, r: nat)
    requires m.Valid()
  {
    && r < m.hop && |xs| == Start(m, k) + r
    && s.hops == Hops(m, xs, k)
    && s.ring == xs[Start(m, k)..]
    && s.ready == (if k == 0 then [] else m.infer(s.hops)[r + 1..])
  }

  /** One more sample, without and with a hop being completed. */
  lemma Grows(m: Model, xs: seq<Sample>, x: Sample, s: State, k: nat, r: nat)
    requires m.Valid() && Holds(m, xs, s, k, r) && r + 1 < m.hop
    ensures Holds(m, xs + [x], Popped(Pushed(m, s, x)), k, r + 1)
    ensures Wet(Pushed(m, s, x), x) == if k == 0 then x else m.infer(Hops(m, xs, k))[r + 1]
  {
    HopsPrefix(m, xs, [x], k);
    assert (xs + [x])[Start(m, k)..] == s.ring + [x];
  }

  lemma Completes(m: Model, xs: seq<Sample>, x: Sample, s: State, k: nat, r: nat)
    requires m.Valid() && Holds(m, xs, s, k, r) && r + 1 == m.hop
    ensures Start(m, k + 1) <= |xs + [x]| && Holds(m, xs + [x], Popped(Pushed(m, s, x)), k + 1, 0)
    ensures Wet(Pushed(m, s, x), x) == m.infer(Hops(m, xs + [x], k + 1))[0]
  {
    HopsPrefix(m, xs, [x], k);
    var ring := s.ring + [x];
    assert ring == (xs + [x])[Start(m, k)..Start(m, k + 1)] == ring[..m.hop];
    assert s.ready == [];
    assert (xs + [x])[Start(m, k + 1)..] == [] == ring[m.hop..];
    var hops := s.hops + [ring[..m.hop]];
    assert hops == Hops(m, xs + [x], k + 1);
    assert s.ready + m.infer(hops) == m.infer(hops);
  }

  lemma OneMore(m: Model, s: State, xs: seq<Sample>, x: Sample)
    ensures After(m, s, xs + [x]) == Popped(Pushed(m, After(m, s, xs), x))
    ensures Wets(m, s, xs + [x])[|xs|] == Wet(Pushed(m, After(m, s, xs), x), x)
  {
    assert (xs + [x])[..|xs|] == xs;
  }

  /** The state and the newest wet sample after one more sample. */
  lemma StateStep(m: Model, xs: seq<Sample>, x: Sample, k: nat, r: nat) returns (k': nat, r': nat)
    requires m.Valid() && Holds(m, xs, After(m, FRESH, xs), k, r)
    ensures Holds(m, xs + [x], After(m, FRESH, xs + [x]), k', r')
    ensures Wets(m, FRESH, xs + [x])[|xs|] == if k' == 0 then x else m.infer(Hops(m, xs + [x], k'))[r']
  {
    hide Pushed, Popped, Wet, After, Wets, Hops;
    OneMore(m, FRESH, xs, x);
    var s := After(m, FRESH, xs);
    if r + 1 < m.hop {
      Grows(m, xs, x, s, k, r);
      HopsPrefix(m, xs, [x], k);
      k', r' := k, r + 1;
    } else {
      Completes(m, xs, x, s, k, r);
      k', r' := k + 1, 0;
    }
  }

  lemma StateFresh(m: Model)
    requires m.Valid()
    ensures Holds(m, [], After(m, FRESH, []), 0, 0)
  {
  }

  /** The state and the newest wet sample, after any stream. */
  lemma {:induction false} StateAfter(m: Model, xs: seq<Sample>) returns (k: nat, r: nat)
    requires m.Valid()
    ensures Holds(m, xs, After(m, FRESH, xs), k, r)
    ensures xs != [] ==>
              var n := |xs| - 1;
              Wets(m, FRESH, xs)[n] == if k == 0 then xs[n] else m.infer(Hops(m, xs, k))[r]
    decreases |xs|
  {
    hide After, Wets, Hops, Holds;
    if xs == [] {
      k, r := 0, 0;
      StateFresh(m);
    } else {
      var init, x := xs[..|xs| - 1], xs[|xs| - 1];
      assert xs == init + [x];
      var j, q := StateAfter(m, init);
      k, r := StateStep(m, init, x, j, q);
    }
  }

  lemma {:induction false} EnhancedAt(m: Model, xs: seq<Sample>, all: nat, k: nat, r: nat)
    requires m.Valid() && 1 <= k <= all && Start(m, all) <= |xs| && r < m.hop
    ensures Start(m, k - 1) + r < Start(m, all) && Start(m, k) <= |xs|
    ensures Enhanced(m, xs, all)[Start(m, k - 1) + r] == m.infer(Hops(m, xs, k))[r]
    decreases all
  {
    if k < all { EnhancedAt(m, xs, all - 1, k, r); }
  }

  lemma {:induction false} StartMonotone(m: Model, j: nat, k: nat)
    requires j <= k
    ensures Start(m, j) <= Start(m, k)
    decreases k - j
  {
    if j < k { StartMonotone(m, j + 1, k); }
  }

  /** Once the first hop has run, the two queues together always hold one hop less
      one sample; before that nothing is ready. */
  lemma {:induction false} QueuesHoldTheDelay(m: Model, xs: seq<Sample>)
    requires m.Valid()
    ensures var s := After(m, FRESH, xs);
            if |xs| < m.hop then s.ready == [] && s.ring == xs else |s.ring| + |s.ready| == m.hop - 1
  {
    hide After;
    var k, r := StateAfter(m, xs);
    if k > 0 { StartMonotone(m, 1, k); }
  }

  /** Wet sample i is the dry input until the first hop is in, and afterwards the
      enhanced stream, over all hops completed so far, delayed by exactly one hop
      less one sample. */
  lemma ProcessIsDelayLine(m: Model, xs: seq<Sample>, i: nat) returns (all: nat)
    requires m.Valid() && i < |xs|
    ensures all * m.hop == Start(m, all) <= |xs| < (all + 1) * m.hop
    ensures i < m.hop - 1 ==> Wets(m, FRESH, xs)[i] == xs[i]
    ensures i >= m.hop - 1 ==>
              i - (m.hop - 1) < Start(m, all) && Wets(m, FRESH, xs)[i] == Enhanced(m, xs, all)[i - (m.hop - 1)]
  {
    hide After, Wets, Enhanced, Hops;
    var rest;
    all, rest := StateAfter(m, xs);
    StartIsMultiple(m, all);
    StartIsMultiple(m, all + 1);
    var ys, zs := xs[..i + 1], xs[i + 1..];
    assert xs == ys + zs;
    SplitIndependent(m, FRESH, ys, zs);
    var k, r := StateAfter(m, ys);
    assert Wets(m, FRESH, xs)[i] == Wets(m, FRESH, ys)[i];
    if all < k { StartMonotone(m, all + 1, k); }
    if k > 0 {
      HopsPrefix(m, ys, zs, k);
      EnhancedAt(m, xs, all, k, r);
      StartMonotone(m, 1, k);
      assert i - (m.hop - 1) == Start(m, k - 1) + r;
    }
  }

  // -- The object ------------------------------------------------------------------------------------

  class DeepFilterDenoiser {
    const model: Model
    var attenuation: Sample
    var hops: seq<seq<Sample>>
    var inputRing: seq<Sample>
    var outputReady: seq<Sample>

    ghost function View(): (s: State)
      reads this
    {
      State(hops, inputRing, outputReady)
    }

    constructor (model: Model, attenuation: Sample)
      ensures this.model == model && this.attenuation == attenuation && View() == FRESH
    {
      this.model, this.attenuation := model, attenuation;
      hops, inputRing, outputReady := [], [], [];
    }

    /** Processing clamps the value once more, which never changes one set here. */
    method SetAttenuation(a: Sample)
      modifies this`attenuation
      ensures attenuation == Clamped(a) && Clamped(attenuation) == attenuation
      ensures 0.0 <= a <= 1.0 ==> attenuation == a
    {
      attenuation := Clamped(a);
    }

    method RunHop()
      requires |inputRing| >= model.hop
      modifies this`hops, this`inputRing, this`outputReady
      ensures var all := old(hops) + [old(inputRing)[..model.hop]];
              View() == State(all, old(inputRing)[model.hop..], old(outputReady) + model.infer(all))
    {
      var noisy := inputRing[..model.hop];
      inputRing := inputRing[model.hop..];
      hops := hops + [noisy];
      outputReady := outputReady + model.infer(hops);
    }

    /** One sample through the ring. */
    method Tick(dry: Sample) returns (wet: Sample)
      modifies this`hops, this`inputRing, this`outputReady
      ensures View() == Popped(Pushed(model, old(View()), dry))
      ensures wet == Wet(Pushed(model, old(View()), dry), dry)
    {
      inputRing := inputRing + [dry];
      if |inputRing| >= model.hop {
        RunHop();
      }
      wet := dry;
      if outputReady != [] {
        wet := outputReady[0];
        outputReady := outputReady[1..];
      }
    }

    /** With a zero attenuation nothing happens; otherwise every sample is moved towards its
        wet value by that share of the distance. */
    method Process(samples: array<Sample>)
      modifies this, samples
      ensures attenuation == old(attenuation)
      ensures attenuation <= 0.0 ==> View() == old(View()) && samples[..] == old(samples[..])
      ensures attenuation > 0.0 ==> View() == After(model, old(View()), old(samples[..]))
      ensures attenuation > 0.0 ==>
                var a := if attenuation < 1.0 then attenuation else 1.0;
                var wets := Wets(model, old(View()), old(samples[..]));
                Moved(a, old(samples[..]), wets, samples[..])
    {
      hide Mixed, Moved, Pushed, Popped, Wet;
      var a := Clamped(attenuation);
      if a == 0.0 {
        return;
      }
      ghost var s, xs := View(), samples[..];
      for i := 0 to samples.Length
        invariant attenuation == old(attenuation)
        invariant View() == After(model, s, xs[..i])
        invariant forall k :: i <= k < samples.Length ==> samples[k] == xs[k]
        invariant forall k :: 0 <= k < i ==> samples[k] == Mixed(a, xs[k], Wets(model, s, xs[..i])[k])
      {
        var dry := samples[i];
        assert xs[..i + 1][..i] == xs[..i];
        var wet := Tick(dry);
        samples[i] := Mixed(a, dry, wet);
      }
      assert xs[..samples.Length] == xs;
      MixMoves(a, xs, Wets(model, s, xs), samples[..]);
    }
  }

  /** At full strength a new denoiser leaves the first hop less one sample as they were and
      then writes the enhanced stream, shifted by that many samples. */
  method DenoiseAll(model: Model, samples: array<Sample>) returns (hops: nat)
    requires model.Valid()
    modifies samples
    ensures var xs := old(samples[..]);
            && hops * model.hop == Start(model, hops) <= |xs| < (hops + 1) * model.hop
            && (forall i :: 0 <= i < |xs| && i < model.hop - 1 ==> samples[i] == xs[i])
            && (forall i :: model.hop - 1 <= i < |xs| ==>
                  i - (model.hop - 1) < Start(model, hops) &&
                  samples[i] == Enhanced(model, xs, hops)[i - (model.hop - 1)])
  {
    hide Wets, After, Enhanced, Start, Moved;
    ghost var xs := samples[..];
    var denoiser := new DeepFilterDenoiser(model, 1.0);
    denoiser.Process(samples);
    FullShare(xs, Wets(model, FRESH, xs), samples[..]);
    hops := samples.Length / model.hop;
    HopsFit(model, xs, hops);
    forall i | 0 <= i < |xs|
      ensures i < model.hop - 1 ==> samples[i] == xs[i]
      ensures i >= model.hop - 1 ==>
                i - (model.hop - 1) < Start(model, hops) && samples[i] == Enhanced(model, xs, hops)[i - (model.hop - 1)]
    {
      var all := ProcessIsDelayLine(model, xs, i);
      SameHops(model, |xs|, all, hops);
    }
  }

  lemma HopsFit(m: Model, xs: seq<Sample>, hops: nat)
    requires m.hop > 0 && hops == |xs| / m.hop
    ensures hops * m.hop == Start(m, hops) <= |xs| < (hops + 1) * m.hop
  {
    StartIsMultiple(m, hops);
    assert |xs| == m.hop * hops + |xs| % m.hop;
  }

  lemma SameHops(m: Model, n: nat, a: nat, b: nat)
    requires m.hop > 0 && a * m.hop <= n < (a + 1) * m.hop && b * m.hop <= n < (b + 1) * m.hop
    ensures a == b
  {
    QuotientIs(n, m.hop, a, n - a * m.hop);
    QuotientIs(n, m.hop, b, n - b * m.hop);
  }
}
