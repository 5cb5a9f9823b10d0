/** The speller: the input selection and state threading of `DecoderCell.call`,
    and the greedy free-running loop of `LASModel.decode`. The LSTM cells, the
    Dense stacks and the Attention layer are opaque functions; the categorical
    sample and the uniform draw are supplied by the caller. */
module Decoder {
  import opened Tensors
  import opened DataPipeline
  import opened Listener

  /** An LSTMCell step: (input, (memory, carry)) to (output, (memory, carry)). */
  type LstmCell = (Vec, (Vec, Vec)) -> (Vec, (Vec, Vec))

  /** The chr MLP (chr2 after chr1): logits over the vocabulary. */
  type CharMlp = f: Vec -> Vec | forall x :: |f(x)| == VocDim
    witness (x: Vec) => Zeros(VocDim)

  /** layers.Attention on [query, value, key] under the key mask, with its
      output reshaped to one context vector. */
  type Attend = (Vec, seq<Vec>, seq<Vec>, seq<bool>) -> Vec

  /** The trained sublayers of a DecoderCell and its frac_pyp. `phi` is phi2
      after phi1. */
  datatype DecoderNets = DecoderNets(
    lstm1: LstmCell, lstm2: LstmCell, phi: Vec -> Vec, att: Attend, chr: CharMlp, fracPyp: real)

  /** The `constants` of a cell call: listener features, keys, mask, and blend. */
  datatype CellConstants = CellConstants(features: seq<Vec>, keys: seq<Vec>, mask: seq<bool>, blend: bool)

  /** The random inputs of one cell call for one example: the one-hot sample
      drawn from the previous prediction, and the uniform draw in [0, 1). */
  datatype Draw = Draw(sample: Vec, uniform: real)

  /** The seven entries of the cell state list, in order: [memory, carry] of
      LSTM 1, [memory, carry] of LSTM 2, the previous s vector (psv), the
      previous context (pcv) and the previous prediction (pyp). */
  datatype CellState = CellState(mem1: Vec, carry1: Vec, mem2: Vec, carry2: Vec, psv: Vec, pcv: Vec, pyp: Vec)

  // ---------------------------------------------------------------------
  // DecoderCell.call: choice of the input character

  function Scale(a: real, v: Vec): (r: Vec)
    ensures |r| == |v|
  {
    seq(|v|, i requires 0 <= i < |v| => a * v[i])
  }

  function Add(u: Vec, v: Vec): (r: Vec)
    requires |u| == |v|
    ensures |r| == |u|
  {
    seq(|u|, i requires 0 <= i < |u| => u[i] + v[i])
  }

  /** The y to use for one example, computed with the program's 0/1 multipliers.
      The arithmetic is a selection: the sample when blending and the draw is
      below frac_pyp, the given input otherwise, and nothing mixed in. */
  function BlendRow(yin: Vec, sample: Vec, r: real, fracPyp: real, blend: bool): (ytu: Vec)
    requires |sample| == |yin|
    ensures ytu == if blend && r < fracPyp then sample else yin
  {
    var mixed := Add(Scale(Indicator(r < fracPyp), sample), Scale(Indicator(r >= fracPyp), yin));
    var gated := Scale(Indicator(blend), mixed);
    var ytu := Add(gated, Scale(Indicator(!blend), yin));
    assert forall i :: 0 <= i < |yin| ==> ytu[i] == (if blend && r < fracPyp then sample else yin)[i];
    ytu
  }

  /** The y to use for a whole batch: one uniform draw per example. */
  function BlendBatch(yin: seq<Vec>, sample: seq<Vec>, rut: seq<real>, fracPyp: real, blend: bool): (ytu: seq<Vec>)
    requires |sample| == |yin| == |rut|
    requires forall b :: 0 <= b < |yin| ==> |sample[b]| == |yin[b]|
    ensures |ytu| == |yin|
    ensures forall b :: 0 <= b < |yin| ==> ytu[b] == if blend && rut[b] < fracPyp then sample[b] else yin[b]
  {
    seq(|yin|, b requires 0 <= b < |yin| => BlendRow(yin[b], sample[b], rut[b], fracPyp, blend))
  }

  /** Without blending, a batch is fed its given inputs verbatim, whatever was drawn. */
  lemma BlendBatchOffIsIdentity(yin: seq<Vec>, sample: seq<Vec>, rut: seq<real>, fracPyp: real)
    requires |sample| == |yin| == |rut|
    requires forall b :: 0 <= b < |yin| ==> |sample[b]| == |yin[b]|
    ensures BlendBatch(yin, sample, rut, fracPyp, false) == yin
  {
  }

  // ---------------------------------------------------------------------
  // DecoderCell.call: one step

  /** The cell after the input is chosen: LSTMs on [psv, ytu, pcv], the query,
      the attention context, the logits. The output is also the last element
      of the new state, and the new state has the layout the next call reads. */
  function CellCore(nets: DecoderNets, ytu: Vec, st: CellState, k: CellConstants): (r: (Vec, CellState))
    ensures |r.0| == VocDim
    ensures (r.1.mem1, r.1.carry1) == nets.lstm1(st.psv + ytu + st.pcv, (st.mem1, st.carry1)).1
    ensures (r.1.psv, (r.1.mem2, r.1.carry2))
         == nets.lstm2(nets.lstm1(st.psv + ytu + st.pcv, (st.mem1, st.carry1)).0, (st.mem2, st.carry2))
    ensures r.1.pcv == nets.att(nets.phi(r.1.psv), k.features, k.keys, k.mask)
    ensures r.0 == nets.chr(r.1.psv + r.1.pcv)
    ensures r.1.pyp == r.0
  {
    var first := nets.lstm1(st.psv + ytu + st.pcv, (st.mem1, st.carry1));
    var second := nets.lstm2(first.0, (st.mem2, st.carry2));
    var si := second.0;
    var ci := nets.att(nets.phi(si), k.features, k.keys, k.mask);
    var yp := nets.chr(si + ci);
    (yp, CellState(first.1.0, first.1.1, second.1.0, second.1.1, si, ci, yp))
  }

  /** DecoderCell.call: the output and the state for the next step. */
  function CellCall(nets: DecoderNets, yin: Vec, st: CellState, k: CellConstants, draw: Draw): (r: (Vec, CellState))
    requires |draw.sample| == |yin|
    ensures r == CellCore(nets, if k.blend && draw.uniform < nets.fracPyp then draw.sample else yin, st, k)
    ensures |r.0| == VocDim && r.1.pyp == r.0
  {
    CellCore(nets, BlendRow(yin, draw.sample, draw.uniform, nets.fracPyp, k.blend), st, k)
  }

  /** With blend off a cell call is a deterministic function of its input,
      state and constants: the random draws do not matter. */
  lemma CellIgnoresDrawWithoutBlend(nets: DecoderNets, yin: Vec, st: CellState, k: CellConstants, d1: Draw, d2: Draw)
    requires !k.blend && |d1.sample| == |yin| && |d2.sample| == |yin|
    ensures CellCall(nets, yin, st, k, d1) == CellCall(nets, yin, st, k, d2) == CellCore(nets, yin, st, k)
  {
  }

  /** The all-zero initial state that layers.RNN and decode use. */
  function ZeroState(decDim: nat, lisDim: nat): (st: CellState)
    ensures |st.mem1| == |st.carry1| == |st.mem2| == |st.carry2| == |st.psv| == decDim
    ensures |st.pcv| == 2 * lisDim && |st.pyp| == VocDim
    ensures forall i :: 0 <= i < decDim ==> st.mem1[i] == st.carry1[i] == st.mem2[i] == st.carry2[i] == st.psv[i] == 0.0
    ensures forall i :: 0 <= i < 2 * lisDim ==> st.pcv[i] == 0.0
    ensures forall i :: 0 <= i < VocDim ==> st.pyp[i] == 0.0
  {
    CellState(Zeros(decDim), Zeros(decDim), Zeros(decDim), Zeros(decDim), Zeros(decDim), Zeros(2 * lisDim), Zeros(VocDim))
  }

  // ---------------------------------------------------------------------
  // LASModel.listen and LASModel.decode

  /** The parts of an LASModel that decode uses. `psi` is psi2 after psi1. */
  datatype LasModel = LasModel(
    listener: ListenerNets, psi: Vec -> Vec, cell: DecoderNets, decDim: nat, lisDim: nat, maxDec: nat)

  /** What `listen` returns: features h, keys and the listener mask. */
  datatype Listened = Listened(h: seq<Vec>, hkey: seq<Vec>, hmask: seq<bool>)

  /** The psi MLP applied position by position. */
  function Keys(psi: Vec -> Vec, h: seq<Vec>): (keys: seq<Vec>)
    ensures |keys| == |h|
    ensures forall i :: 0 <= i < |h| ==> keys[i] == psi(h[i])
  {
    seq(|h|, i requires 0 <= i < |h| => psi(h[i]))
  }

  /** LASModel.listen for one example. */
  function ListenAll(las: LasModel, x: seq<Vec>, mask: seq<bool>): (r: Result<Listened>)
    requires |mask| == |x|
    ensures r.Ok? <==> |x| % Pow2(|las.listener.stages|) == 0
    ensures r.Ok? ==> |r.value.h| == |r.value.hkey| == |r.value.hmask| == |x| / Pow2(|las.listener.stages|)
    ensures r.Ok? ==> ListenSpec(las.listener, x, mask) == Ok((r.value.h, r.value.hmask))
    ensures r.Ok? ==> forall j :: 0 <= j < |r.value.hmask| ==>
              (r.value.hmask[j] <==>
               AllValid(mask, j * Pow2(|las.listener.stages|), (j + 1) * Pow2(|las.listener.stages|)))
    ensures r.Ok? ==> forall j :: 0 <= j < |r.value.h| ==> r.value.hkey[j] == las.psi(r.value.h[j])
  {
    PyramidShape(las.listener.stages, x, mask);
    match ListenSpec(las.listener, x, mask)
    case Err(e) => Err(e)
    case Ok(hm) => Ok(Listened(hm.0, Keys(las.psi, hm.0), hm.1))
  }

  /** decode never blends. */
  function DecodeConstants(l: Listened): CellConstants
  {
    CellConstants(l.h, l.hkey, l.hmask, false)
  }

  /** The draw passed to each decode step. With blend off it has no effect
      (CellIgnoresDrawWithoutBlend), so one fixed draw stands for the
      categorical sample the program takes. */
  function DecodeDraw(yin: Vec): Draw
  {
    Draw(yin, 1.0)
  }

  /** tf.argmax on one row: an index of a largest entry. */
  ghost predicate IsArgmax(v: Vec, i: nat)
  {
    i < |v| && forall j :: 0 <= j < |v| ==> v[j] <= v[i]
  }

  /** argmax picks a largest entry of every non-empty row; ties are unspecified. */
  ghost predicate IsArgmaxFn(argmax: Vec -> nat)
  {
    forall v: Vec :: |v| > 0 ==> IsArgmax(v, argmax(v))
  }

  /** One decode step from (input, state) to (logits, next state). */
  type Step = f: (Vec, CellState) -> (Vec, CellState) | forall x, st :: |f(x, st).0| == VocDim
    witness (x: Vec, st: CellState) => (Zeros(VocDim), st)

  /** The cell as decode calls it: with the listener's constants and blend off. */
  function DecodeStep(nets: DecoderNets, l: Listened): (step: Step)
  {
    (yin: Vec, st: CellState) => CellCall(nets, yin, st, DecodeConstants(l), DecodeDraw(yin))
  }

  /** Every index names a row of the one-hot vocabulary. */
  predicate AllInVocabulary(codes: seq<nat>)
  {
    forall i :: 0 <= i < |codes| ==> codes[i] < VocDim
  }

  /** The indices the greedy loop emits from a given loop state: stop when the
      last decoded index is the end symbol or no steps remain; otherwise run
      the cell, emit the argmax, and feed its one-hot back as the next input. */
  function GreedyRun(step: Step, argmax: Vec -> nat, yin: Vec, st: CellState, yd: nat, steps: nat): (out: seq<nat>)
    ensures |out| <= steps
    ensures out != [] ==> yd != Eos && out[0] == argmax(step(yin, st).0)
    decreases steps
  {
    if steps == 0 || yd == Eos then []
    else
      var d := argmax(step(yin, st).0);
      [d] + GreedyRun(step, argmax, OneHot(d, VocDim), step(yin, st).1, d, steps - 1)
  }

  /** The loop emits at most `steps` indices; only the last can be the end
      symbol; and it stops early only after emitting the end symbol. */
  lemma {:induction false} GreedyRunStops(step: Step, argmax: Vec -> nat, yin: Vec, st: CellState, yd: nat, steps: nat)
    ensures |GreedyRun(step, argmax, yin, st, yd, steps)| <= steps
    ensures forall i :: 0 <= i < |GreedyRun(step, argmax, yin, st, yd, steps)| - 1 ==>
              GreedyRun(step, argmax, yin, st, yd, steps)[i] != Eos
    ensures yd == Eos ==> GreedyRun(step, argmax, yin, st, yd, steps) == []
    ensures yd != Eos && steps > 0 ==> |GreedyRun(step, argmax, yin, st, yd, steps)| > 0
    ensures yd != Eos && |GreedyRun(step, argmax, yin, st, yd, steps)| < steps ==>
              GreedyRun(step, argmax, yin, st, yd, steps)[|GreedyRun(step, argmax, yin, st, yd, steps)| - 1] == Eos
    decreases steps
  {
    if steps > 0 && yd != Eos {
      var d := argmax(step(yin, st).0);
      var rest := GreedyRun(step, argmax, OneHot(d, VocDim), step(yin, st).1, d, steps - 1);
      GreedyRunStops(step, argmax, OneHot(d, VocDim), step(yin, st).1, d, steps - 1);
      var out := GreedyRun(step, argmax, yin, st, yd, steps);
      assert out == [d] + rest;
      forall i | 0 <= i < |out| - 1
        ensures out[i] != Eos
      {
        if i > 0 {
          assert out[i] == rest[i - 1];
        }
      }
    }
  }

  /** Every emitted index is a valid vocabulary position. */
  lemma {:induction false} GreedyRunInVocabulary(step: Step, argmax: Vec -> nat, yin: Vec, st: CellState, yd: nat, steps: nat)
    requires IsArgmaxFn(argmax)
    ensures AllInVocabulary(GreedyRun(step, argmax, yin, st, yd, steps))
    decreases steps
  {
    if steps > 0 && yd != Eos {
      var d := argmax(step(yin, st).0);
      assert IsArgmax(step(yin, st).0, d);
      GreedyRunInVocabulary(step, argmax, OneHot(d, VocDim), step(yin, st).1, d, steps - 1);
    }
  }

  /** One more step of a run: the index emitted first is the argmax of the
      step's logits, and the run continues from its one-hot and the state the
      step returned. Appending that index to what was decoded so far keeps the
      decoded prefix of the same whole run. */
  lemma GreedyRunFeedsBack(step: Step, argmax: Vec -> nat, yin: Vec, st: CellState, yd: nat, steps: nat,
                           done: seq<nat>, whole: seq<nat>)
    requires steps > 0 && yd != Eos
    requires whole == done + GreedyRun(step, argmax, yin, st, yd, steps)
    ensures var d := argmax(step(yin, st).0);
            whole == (done + [d]) + GreedyRun(step, argmax, OneHot(d, VocDim), step(yin, st).1, d, steps - 1)
  {
    var d := argmax(step(yin, st).0);
    var rest := GreedyRun(step, argmax, OneHot(d, VocDim), step(yin, st).1, d, steps - 1);
    assert GreedyRun(step, argmax, yin, st, yd, steps) == [d] + rest;
    assert done + ([d] + rest) == (done + [d]) + rest;
  }

  /** A run that never predicts the end symbol emits exactly the cap. */
  lemma RunWithoutEosFillsCap(step: Step, argmax: Vec -> nat, yin: Vec, st: CellState, yd: nat, steps: nat)
    requires yd != Eos && Eos !in GreedyRun(step, argmax, yin, st, yd, steps)
    ensures |GreedyRun(step, argmax, yin, st, yd, steps)| == steps
  {
    GreedyRunStops(step, argmax, yin, st, yd, steps);
  }

  /** How a decoded sequence ends: at most maxDec indices, the end symbol at
      most once and only last, and a sequence shorter than the cap ends with it. */
  predicate StopsAtEos(out: seq<nat>, maxDec: nat)
  {
    && |out| <= maxDec
    && (forall i :: 0 <= i < |out| - 1 ==> out[i] != Eos)
    && (|out| < maxDec ==> |out| > 0 && out[|out| - 1] == Eos)
  }

  /** The while loop of decode: from the start symbol and the given state,
      call the step, append the argmax of its logits, feed the one-hot of that
      index back, until the end symbol is decoded or maxDec steps have run. */
  method GreedyDecode(step: Step, argmax: Vec -> nat, init: CellState, maxDec: nat)
    returns (decoded: seq<nat>)
    ensures decoded == GreedyRun(step, argmax, OneHot(Sos, VocDim), init, Sos, maxDec)
    ensures StopsAtEos(decoded, maxDec)
    ensures IsArgmaxFn(argmax) ==> AllInVocabulary(decoded)
  {
    var yin := OneHot(Sos, VocDim);
    var state := init;
    var yd: nat := Sos;
    decoded := [];
    var decI := 0;
    ghost var whole := GreedyRun(step, argmax, yin, state, yd, maxDec);
    while decI < maxDec && yd != Eos
      invariant decI <= maxDec && |decoded| == decI
      invariant whole == decoded + GreedyRun(step, argmax, yin, state, yd, maxDec - decI)
      decreases maxDec - decI
    {
      var out := step(yin, state);
      var d := argmax(out.0);
      GreedyRunFeedsBack(step, argmax, yin, state, yd, maxDec - decI, decoded, whole);
      decoded := decoded + [d];
      decI := decI + 1;
      yin, state, yd := OneHot(d, VocDim), out.1, d;
    }
    assert GreedyRun(step, argmax, yin, state, yd, maxDec - decI) == [];
    GreedyRunStops(step, argmax, OneHot(Sos, VocDim), init, Sos, maxDec);
    if IsArgmaxFn(argmax) {
      GreedyRunInVocabulary(step, argmax, OneHot(Sos, VocDim), init, Sos, maxDec);
    }
  }

  /** decode for the single example of a batch of one: listen, then the greedy
      loop from the zero state and the start symbol, capped at maxDec steps. */
  method DecodeExample(las: LasModel, argmax: Vec -> nat, x: seq<Vec>, mask: seq<bool>)
    returns (r: Result<seq<nat>>)
    requires |mask| == |x|
    ensures r.Ok? <==> |x| % Pow2(|las.listener.stages|) == 0
    ensures r.Ok? ==>
              ListenAll(las, x, mask).Ok? &&
              r.value == GreedyRun(DecodeStep(las.cell, ListenAll(las, x, mask).value), argmax,
                                   OneHot(Sos, VocDim), ZeroState(las.decDim, las.lisDim), Sos, las.maxDec)
    ensures r.Ok? ==> StopsAtEos(r.value, las.maxDec)
    ensures r.Ok? && IsArgmaxFn(argmax) ==> AllInVocabulary(r.value)
  {
    var heard := Listen(las.listener, x, mask);
    if heard.Err? {
      return Err(heard.error);
    }
    var l := Listened(heard.value.0, Keys(las.psi, heard.value.0), heard.value.1);
    assert Ok(l) == ListenAll(las, x, mask);
    var decoded := GreedyDecode(DecodeStep(las.cell, l), argmax, ZeroState(las.decDim, las.lisDim), las.maxDec);
    r := Ok(decoded);
    assert r.value == decoded;
  }

  /** LASModel.decode: both inputs must hold a batch of exactly one example. */
  method Decode(las: LasModel, argmax: Vec -> nat, logmels: seq<seq<Vec>>, logmelMask: seq<seq<bool>>)
    returns (r: Result<seq<nat>>)
    requires |logmels| == 1 && |logmelMask| == 1 ==> |logmelMask[0]| == |logmels[0]|
    ensures |logmels| != 1 || |logmelMask| != 1 ==> r == Err(BatchSizeNotOne)
    ensures |logmels| == 1 && |logmelMask| == 1 ==>
              (r.Ok? <==> |logmels[0]| % Pow2(|las.listener.stages|) == 0)
    ensures r.Ok? ==>
              |logmels| == 1 && |logmelMask| == 1 && ListenAll(las, logmels[0], logmelMask[0]).Ok? &&
              r.value == GreedyRun(DecodeStep(las.cell, ListenAll(las, logmels[0], logmelMask[0]).value), argmax,
                                   OneHot(Sos, VocDim), ZeroState(las.decDim, las.lisDim), Sos, las.maxDec)
    ensures r.Ok? ==> StopsAtEos(r.value, las.maxDec)
    ensures r.Ok? && IsArgmaxFn(argmax) ==> AllInVocabulary(r.value)
  {
    if |logmels| != 1 || |logmelMask| != 1 {
      return Err(BatchSizeNotOne);
    }
    r := DecodeExample(las, argmax, logmels[0], logmelMask[0]);
  }
}
