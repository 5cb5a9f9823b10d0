/** The pyramidal listener: `ListenerLayer.call` (one bidirectional LSTM, then
    adjacent time steps paired by a reshape and their mask entries ANDed) and
    `Listener.call` (the stages in sequence, then a final bidirectional LSTM).
    The LSTMs themselves are opaque functions. */
module Listener {
  import opened Tensors

  /** A Bidirectional(LSTM, return_sequences=True) layer applied under a mask:
      one output vector per input time step. */
  type BiLstm = f: (seq<Vec>, seq<bool>) -> seq<Vec> | forall x, m :: |f(x, m)| == |x|
    witness (x: seq<Vec>, m: seq<bool>) => x

  /** The layers of a Listener: one BiLstm per pyramid stage, and the final one. */
  datatype ListenerNets = ListenerNets(stages: seq<BiLstm>, final: BiLstm)

  // ---------------------------------------------------------------------
  // ListenerLayer.call

  /** Reshape((-1, 2 * width)) of a (timesteps, width) sequence: output k is
      the concatenation of time steps 2k and 2k+1. */
  function PairFrames(y: seq<Vec>): (r: seq<Vec>)
    requires |y| % 2 == 0
    ensures |r| == |y| / 2
    ensures forall k :: 0 <= k < |r| ==> r[k] == y[2 * k] + y[2 * k + 1]
    decreases |y|
  {
    if y == [] then [] else [y[0] + y[1]] + PairFrames(y[2..])
  }

  /** The pairing is a reshape: it keeps the row-major contents. */
  lemma {:induction false} PairFramesKeepsContents(y: seq<Vec>)
    requires |y| % 2 == 0
    ensures Flatten(PairFrames(y)) == Flatten(y)
    decreases |y|
  {
    if y != [] {
      var r := PairFrames(y);
      PairFramesKeepsContents(y[2..]);
      assert r[0] == y[0] + y[1] && r[1..] == PairFrames(y[2..]);
      assert y[1..][0] == y[1] && y[1..][1..] == y[2..];
      calc {
        Flatten(r);
        r[0] + Flatten(r[1..]);
        (y[0] + y[1]) + Flatten(y[2..]);
        y[0] + (y[1] + Flatten(y[1..][1..]));
        y[0] + Flatten(y[1..]);
        Flatten(y);
      }
    }
  }

  /** Reshape((-1, 2)) of the mask, then reduce_all over the last axis. */
  function PairMask(m: seq<bool>): (r: seq<bool>)
    requires |m| % 2 == 0
    ensures |r| == |m| / 2
    ensures forall k :: 0 <= k < |r| ==> (r[k] <==> m[2 * k] && m[2 * k + 1])
    decreases |m|
  {
    if m == [] then [] else [m[0] && m[1]] + PairMask(m[2..])
  }

  /** One pyramid stage. The reshapes fail when the number of time steps is odd. */
  function ListenerStage(bi: BiLstm, x: seq<Vec>, mask: seq<bool>): (r: Result<(seq<Vec>, seq<bool>)>)
    requires |mask| == |x|
    ensures r.Ok? <==> |x| % 2 == 0
    ensures r.Ok? ==> |r.value.0| == |r.value.1| == |x| / 2
    ensures r.Ok? ==> forall k :: 0 <= k < |x| / 2 ==>
              r.value.0[k] == bi(x, mask)[2 * k] + bi(x, mask)[2 * k + 1]
    ensures r.Ok? ==> forall k :: 0 <= k < |x| / 2 ==>
              (r.value.1[k] <==> mask[2 * k] && mask[2 * k + 1])
  {
    var y := bi(x, mask);
    if |y| % 2 != 0 then Err(OddTimeSteps) else Ok((PairFrames(y), PairMask(mask)))
  }

  // ---------------------------------------------------------------------
  // Listener.call

  /** The stages applied in order, each to the previous stage's output. */
  function Pyramid(stages: seq<BiLstm>, x: seq<Vec>, mask: seq<bool>): (r: Result<(seq<Vec>, seq<bool>)>)
    requires |mask| == |x|
    ensures r.Ok? ==> |r.value.0| == |r.value.1|
    ensures r.Err? ==> stages != [] && r.error == OddTimeSteps
    decreases |stages|
  {
    if stages == [] then Ok((x, mask))
    else
      match ListenerStage(stages[0], x, mask)
      case Err(e) => Err(e)
      case Ok(out) => Pyramid(stages[1..], out.0, out.1)
  }

  /** The listener feature sequence h and its mask. */
  function ListenSpec(nets: ListenerNets, x: seq<Vec>, mask: seq<bool>): (r: Result<(seq<Vec>, seq<bool>)>)
    requires |mask| == |x|
    ensures r.Ok? <==> Pyramid(nets.stages, x, mask).Ok?
    ensures r.Ok? ==> |r.value.0| == |r.value.1| && r.value.1 == Pyramid(nets.stages, x, mask).value.1
  {
    match Pyramid(nets.stages, x, mask)
    case Err(e) => Err(e)
    case Ok(p) => Ok((nets.final(p.0, p.1), p.1))
  }

  /** The block [lo, hi) lies inside the mask and every position in it is valid. */
  predicate AllValid(m: seq<bool>, lo: int, hi: int)
  {
    0 <= lo && hi <= |m| && forall i :: lo <= i < hi ==> m[i]
  }

  /** After the stages, the sequence is shorter by exactly 2**stages, and output
      position j is valid iff every frame of block [j * 2**stages, (j+1) * 2**stages)
      was. The stages fail exactly when the frame count is not a multiple of 2**stages. */
  lemma {:induction false} PyramidShape(stages: seq<BiLstm>, x: seq<Vec>, mask: seq<bool>)
    requires |mask| == |x|
    ensures Pyramid(stages, x, mask).Ok? <==> |x| % Pow2(|stages|) == 0
    ensures Pyramid(stages, x, mask).Ok? ==>
              |Pyramid(stages, x, mask).value.0| == |x| / Pow2(|stages|)
    ensures Pyramid(stages, x, mask).Ok? ==>
              forall j :: 0 <= j < |Pyramid(stages, x, mask).value.1| ==>
                (Pyramid(stages, x, mask).value.1[j] <==>
                 AllValid(mask, j * Pow2(|stages|), (j + 1) * Pow2(|stages|)))
    decreases |stages|
  {
    if stages == [] {
      assert Pow2(0) == 1;
      forall j | 0 <= j < |mask|
        ensures mask[j] <==> AllValid(mask, j * 1, (j + 1) * 1)
      {
        assert AllValid(mask, j, j + 1) ==> mask[j];
      }
    } else {
      var p := Pow2(|stages| - 1);
      assert Pow2(|stages|) == 2 * p;
      DoubleDivides(|x|, p);
      var out := ListenerStage(stages[0], x, mask);
      if out.Ok? {
        var x', m' := out.value.0, out.value.1;
        PyramidShape(stages[1..], x', m');
        var r := Pyramid(stages[1..], x', m');
        assert Pyramid(stages, x, mask) == r;
        if r.Ok? {
          forall j | 0 <= j < |r.value.1|
            ensures r.value.1[j] <==> AllValid(mask, j * (2 * p), (j + 1) * (2 * p))
          {
            PairMaskBlock(mask, m', p, j);
          }
        }
      }
    }
  }

  /** A block of 2p frames is valid iff the block of p paired positions covering it is. */
  lemma PairMaskBlock(m: seq<bool>, pm: seq<bool>, p: nat, j: nat)
    requires |m| % 2 == 0 && |pm| == |m| / 2
    requires forall k :: 0 <= k < |pm| ==> (pm[k] <==> m[2 * k] && m[2 * k + 1])
    ensures AllValid(pm, j * p, (j + 1) * p) <==> AllValid(m, j * (2 * p), (j + 1) * (2 * p))
  {
    var lo := j * p;
    assert (j + 1) * p == lo + p;
    assert j * (2 * p) == 2 * lo;
    assert (j + 1) * (2 * p) == 2 * lo + 2 * p;
    if AllValid(pm, lo, lo + p) {
      forall i | 2 * lo <= i < 2 * lo + 2 * p
        ensures m[i]
      {
        var k := i / 2;
        assert lo <= k < lo + p && pm[k];
      }
      assert AllValid(m, 2 * lo, 2 * lo + 2 * p);
    }
    if AllValid(m, 2 * lo, 2 * lo + 2 * p) {
      forall k | lo <= k < lo + p
        ensures pm[k]
      {
        assert 2 * k + 1 < |m| && m[2 * k] && m[2 * k + 1];
      }
      assert AllValid(pm, lo, lo + p);
    }
  }

  /** n is a multiple of 2p iff it is even and its half is a multiple of p. */
  lemma DoubleDivides(n: nat, p: nat)
    requires p >= 1
    ensures n % (2 * p) == 0 <==> n % 2 == 0 && (n / 2) % p == 0
    ensures n / (2 * p) == (n / 2) / p
  {
    var h, e := n / 2, n % 2;
    var q, r := h / p, h % p;
    assert h == q * p + r;
    assert q * (2 * p) == 2 * (q * p);
    assert n == q * (2 * p) + (2 * r + e);
    DivModUnique(n, 2 * p, q, 2 * r + e);
  }

  /** Listener.call: the pyramid stages in a loop, then the final BiLstm. */
  method Listen(nets: ListenerNets, x: seq<Vec>, mask: seq<bool>) returns (r: Result<(seq<Vec>, seq<bool>)>)
    requires |mask| == |x|
    ensures r == ListenSpec(nets, x, mask)
    ensures r.Ok? <==> |x| % Pow2(|nets.stages|) == 0
    ensures r.Ok? ==> |r.value.0| == |r.value.1| == |x| / Pow2(|nets.stages|)
    ensures r.Ok? ==> forall j :: 0 <= j < |r.value.1| ==>
              (r.value.1[j] <==> AllValid(mask, j * Pow2(|nets.stages|), (j + 1) * Pow2(|nets.stages|)))
  {
    PyramidShape(nets.stages, x, mask);
    var h, m := x, mask;
    for i := 0 to |nets.stages|
      invariant |m| == |h|
      invariant Pyramid(nets.stages, x, mask) == Pyramid(nets.stages[i..], h, m)
    {
      assert nets.stages[i..][0] == nets.stages[i] && nets.stages[i..][1..] == nets.stages[i + 1..];
      var out := ListenerStage(nets.stages[i], h, m);
      if out.Err? {
        return Err(out.error);
      }
      h, m := out.value.0, out.value.1;
    }
    assert nets.stages[|nets.stages|..] == [];
    r := Ok((nets.final(h, m), m));
  }

  /** 160 all-valid frames through three stages give 20 all-valid listener positions. */
  lemma ThreeStagesOn160Frames(nets: ListenerNets, x: seq<Vec>)
    requires |nets.stages| == 3 && |x| == 160
    ensures ListenSpec(nets, x, seq(160, _ => true)).Ok?
    ensures |ListenSpec(nets, x, seq(160, _ => true)).value.0| == 20
    ensures ListenSpec(nets, x, seq(160, _ => true)).value.1 == seq(20, _ => true)
  {
    var mask := seq(160, _ => true);
    assert Pow2(3) == 8 by {
      assert Pow2(1) == 2;
      assert Pow2(2) == 4;
    }
    PyramidShape(nets.stages, x, mask);
    var hm := Pyramid(nets.stages, x, mask).value.1;
    forall j | 0 <= j < 20
      ensures hm[j]
    {
      assert AllValid(mask, j * 8, (j + 1) * 8);
    }
  }
}
