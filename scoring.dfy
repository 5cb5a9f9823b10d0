/** What the training and validation steps do around the model call: the
    teacher-forcing slices of the ground truth, and the masked sums behind
    `loss_function` and `acc_function`. The batch and character axes are
    flattened into one sequence of positions, which is what `reduce_sum`
    over both axes adds up. */
module Scoring {
  import opened Tensors
  import opened DataPipeline

  // ---------------------------------------------------------------------
  // Teacher forcing

  /** Python's s[:-1]: everything but the last item; an empty sequence stays empty. */
  function DropLast<T>(s: seq<T>): (r: seq<T>)
    ensures |r| == if s == [] then 0 else |s| - 1
    ensures forall i :: 0 <= i < |r| ==> r[i] == s[i]
  {
    if s == [] then [] else s[..|s| - 1]
  }

  /** Python's s[1:]: everything but the first item; an empty sequence stays empty. */
  function DropFirst<T>(s: seq<T>): (r: seq<T>)
    ensures |r| == if s == [] then 0 else |s| - 1
    ensures forall i :: 0 <= i < |r| ==> r[i] == s[i + 1]
  {
    if s == [] then [] else s[1..]
  }

  /** Decoder inputs (without the end row) and targets (without the start row), with their masks. */
  datatype TeacherForced = TeacherForced(yins: seq<Vec>, yinsMask: seq<bool>, ytars: seq<Vec>, ytarsMask: seq<bool>)

  /** The slices of train_step and val_step for one example. Step i is fed row i
      and must predict row i + 1, and each mask entry stays with its row. */
  function TeacherForcing(ygt: seq<Vec>, ygtMask: seq<bool>): (t: TeacherForced)
    requires |ygtMask| == |ygt|
    ensures |t.yins| == |t.yinsMask| == |t.ytars| == |t.ytarsMask| == if ygt == [] then 0 else |ygt| - 1
    ensures forall i :: 0 <= i < |t.yins| ==>
              t.yins[i] == ygt[i] && t.ytars[i] == ygt[i + 1] &&
              (t.yinsMask[i] <==> ygtMask[i]) && (t.ytarsMask[i] <==> ygtMask[i + 1])
  {
    TeacherForced(DropLast(ygt), DropLast(ygtMask), DropFirst(ygt), DropFirst(ygtMask))
  }

  /** Nothing is lost: the inputs plus the end row, and the start row plus the
      targets, are both the ground truth; and each target is the next input. */
  lemma TeacherForcingRoundTrip(ygt: seq<Vec>, ygtMask: seq<bool>)
    requires |ygtMask| == |ygt| && ygt != []
    ensures TeacherForcing(ygt, ygtMask).yins + [ygt[|ygt| - 1]] == ygt
    ensures [ygt[0]] + TeacherForcing(ygt, ygtMask).ytars == ygt
    ensures TeacherForcing(ygt, ygtMask).yinsMask + [ygtMask[|ygt| - 1]] == ygtMask
    ensures [ygtMask[0]] + TeacherForcing(ygt, ygtMask).ytarsMask == ygtMask
    ensures forall i :: 0 <= i < |ygt| - 2 ==>
              TeacherForcing(ygt, ygtMask).ytars[i] == TeacherForcing(ygt, ygtMask).yins[i + 1]
  {
  }

  /** "cat" encodes to the start code, its three code points, and the end code. */
  lemma CatCodes()
    ensures EncodeText(AsWritten, "cat") == [Sos, 99, 97, 116, Eos]
  {
    assert InClass(AsWritten, Lower('c')) && InClass(AsWritten, Lower('a')) && InClass(AsWritten, Lower('t'));
  }

  /** All five rows of "^cat$" are valid. */
  lemma CatMaskAllValid()
    ensures TargetMask(OneHotRows(EncodeText(AsWritten, "cat"))) == [true, true, true, true, true]
  {
    CatCodes();
    TargetMaskOfEncoding(AsWritten, "cat");
  }

  /** "^cat$": five valid rows, so four decoder steps
      fed '^', 'c', 'a', 't' that must predict 'c', 'a', 't', '$', all valid. */
  lemma CatTeacherForcing()
    ensures var ygt := OneHotRows(EncodeText(AsWritten, "cat"));
            var t := TeacherForcing(ygt, TargetMask(ygt));
            |ygt| == 5 &&
            t.yins == OneHotRows([Sos, 99, 97, 116]) && t.ytars == OneHotRows([99, 97, 116, Eos]) &&
            t.yinsMask == [true, true, true, true] && t.ytarsMask == [true, true, true, true]
  {
    var codes := EncodeText(AsWritten, "cat");
    CatCodes();
    CatMaskAllValid();
    var ygt := OneHotRows(codes);
    var t := TeacherForcing(ygt, TargetMask(ygt));
    assert codes[..4] == [Sos, 99, 97, 116] && codes[1..] == [99, 97, 116, Eos];
    assert t.yins == OneHotRows(codes[..4]);
    assert t.ytars == OneHotRows(codes[1..]);
  }

  // ---------------------------------------------------------------------
  // Masked sums

  /** No value is negative. */
  predicate NonNegative(v: seq<real>)
  {
    forall i :: 0 <= i < |v| ==> 0.0 <= v[i]
  }

  /** No position is valid. */
  predicate NoneValid(mask: seq<bool>)
  {
    forall i :: 0 <= i < |mask| ==> !mask[i]
  }

  /** reduce_sum(v * cast(mask, float)): the sum of the values at valid positions. */
  function MaskedSum(v: seq<real>, mask: seq<bool>): (r: real)
    requires |v| == |mask|
    ensures NonNegative(v) ==> 0.0 <= r
    ensures NoneValid(mask) ==> r == 0.0
  {
    if v == [] then 0.0
    else MaskedSum(v[..|v| - 1], mask[..|v| - 1]) + v[|v| - 1] * Indicator(mask[|v| - 1])
  }

  /** reduce_sum(cast(mask, float)): the number of valid positions. */
  function MaskCount(mask: seq<bool>): (n: real)
    ensures n == CountTrue(mask) as real
  {
    if mask == [] then 0.0 else MaskCount(mask[..|mask| - 1]) + Indicator(mask[|mask| - 1])
  }

  /** Appending padded positions, whatever their values, leaves the sum unchanged. */
  lemma {:induction false} MaskedSumOfPads(v: seq<real>, mask: seq<bool>, pv: seq<real>)
    requires |v| == |mask|
    ensures MaskedSum(v + pv, mask + seq(|pv|, _ => false)) == MaskedSum(v, mask)
    decreases |pv|
  {
    if pv != [] {
      var k := |pv| - 1;
      var pads := seq(|pv|, _ => false);
      var n := |v| + k;
      assert (v + pv)[..n] == v + pv[..k];
      assert (mask + pads)[..n] == mask + seq(k, _ => false);
      MaskedSumOfPads(v, mask, pv[..k]);
    } else {
      assert v + pv == v && mask + seq(|pv|, _ => false) == mask;
    }
  }

  /** The values at padded positions do not matter. */
  lemma {:induction false} MaskedSumIgnoresPads(v: seq<real>, w: seq<real>, mask: seq<bool>)
    requires |v| == |w| == |mask|
    requires forall i :: 0 <= i < |mask| && mask[i] ==> v[i] == w[i]
    ensures MaskedSum(v, mask) == MaskedSum(w, mask)
    decreases |mask|
  {
    if mask != [] {
      var n := |mask| - 1;
      MaskedSumIgnoresPads(v[..n], w[..n], mask[..n]);
    }
  }

  /** Values in [0, 1] sum to between zero and the number of valid positions. */
  lemma {:induction false} MaskedSumBounds(v: seq<real>, mask: seq<bool>)
    requires |v| == |mask|
    requires forall i :: 0 <= i < |v| ==> 0.0 <= v[i] <= 1.0
    ensures 0.0 <= MaskedSum(v, mask) <= MaskCount(mask)
    decreases |v|
  {
    if v != [] {
      MaskedSumBounds(v[..|v| - 1], mask[..|v| - 1]);
    }
  }

  /** 0/1 values sum to the number of valid positions whose value is 1. */
  lemma {:induction false} MaskedSumOfIndicators(hit: seq<bool>, mask: seq<bool>)
    requires |hit| == |mask|
    ensures MaskedSum(seq(|hit|, i requires 0 <= i < |hit| => Indicator(hit[i])), mask)
         == CountTrue(seq(|hit|, i requires 0 <= i < |hit| => hit[i] && mask[i])) as real
    decreases |hit|
  {
    var v := seq(|hit|, i requires 0 <= i < |hit| => Indicator(hit[i]));
    var both := seq(|hit|, i requires 0 <= i < |hit| => hit[i] && mask[i]);
    if hit != [] {
      var n := |hit| - 1;
      MaskedSumOfIndicators(hit[..n], mask[..n]);
      assert v[..n] == seq(n, i requires 0 <= i < n => Indicator(hit[..n][i]));
      assert both[..n] == seq(n, i requires 0 <= i < n => hit[..n][i] && mask[..n][i]);
    }
  }

  // ---------------------------------------------------------------------
  // acc_function and loss_function

  /** Per position: 1.0 where the predicted index equals the target index. */
  function Hits(tars: seq<Vec>, logits: seq<Vec>, argmax: Vec -> nat): (h: seq<bool>)
    requires |logits| == |tars|
    ensures |h| == |tars|
    ensures forall i :: 0 <= i < |tars| ==> (h[i] <==> argmax(logits[i]) == argmax(tars[i]))
  {
    seq(|tars|, i requires 0 <= i < |tars| => argmax(logits[i]) == argmax(tars[i]))
  }

  /** acc_function as its numerator and denominator: the masked sum of the hit
      indicators, and the number of valid positions. */
  function AccuracyTerms(tars: seq<Vec>, mask: seq<bool>, logits: seq<Vec>, argmax: Vec -> nat): (r: (real, real))
    requires |mask| == |tars| == |logits|
    ensures r.1 == CountTrue(mask) as real
    ensures 0.0 <= r.0 <= r.1
  {
    var h := Hits(tars, logits, argmax);
    var v := seq(|h|, i requires 0 <= i < |h| => Indicator(h[i]));
    MaskedSumBounds(v, mask);
    (MaskedSum(v, mask), MaskCount(mask))
  }

  /** The numerator counts the valid positions predicted right, the denominator
      the valid positions, so the ratio lies in [0, 1] when any position is valid. */
  lemma AccuracyCountsValidHits(tars: seq<Vec>, mask: seq<bool>, logits: seq<Vec>, argmax: Vec -> nat)
    requires |mask| == |tars| == |logits|
    ensures AccuracyTerms(tars, mask, logits, argmax).0
         == CountTrue(seq(|mask|, i requires 0 <= i < |mask| => mask[i] && argmax(logits[i]) == argmax(tars[i]))) as real
    ensures AccuracyTerms(tars, mask, logits, argmax).1 == CountTrue(mask) as real
    ensures 0.0 <= AccuracyTerms(tars, mask, logits, argmax).0 <= AccuracyTerms(tars, mask, logits, argmax).1
  {
    var h := Hits(tars, logits, argmax);
    var v := seq(|h|, i requires 0 <= i < |h| => Indicator(h[i]));
    MaskedSumOfIndicators(h, mask);
    MaskedSumBounds(v, mask);
    assert seq(|h|, i requires 0 <= i < |h| => h[i] && mask[i])
        == seq(|mask|, i requires 0 <= i < |mask| => mask[i] && argmax(logits[i]) == argmax(tars[i]));
  }

  /** Padding a batch with further positions whose mask is false leaves the accuracy terms unchanged. */
  lemma AccuracyIgnoresPadding(tars: seq<Vec>, mask: seq<bool>, logits: seq<Vec>, argmax: Vec -> nat,
                               padTars: seq<Vec>, padLogits: seq<Vec>)
    requires |mask| == |tars| == |logits| && |padLogits| == |padTars|
    ensures AccuracyTerms(tars + padTars, mask + seq(|padTars|, _ => false), logits + padLogits, argmax)
         == AccuracyTerms(tars, mask, logits, argmax)
  {
    var pads := seq(|padTars|, _ => false);
    var h := Hits(tars, logits, argmax);
    var hp := Hits(tars + padTars, logits + padLogits, argmax);
    var v := seq(|h|, i requires 0 <= i < |h| => Indicator(h[i]));
    var vp := seq(|hp|, i requires 0 <= i < |hp| => Indicator(hp[i]));
    var tail := vp[|v|..];
    assert vp == v + tail;
    MaskedSumOfPads(v, mask, tail);
    assert CountTrue(mask + pads) == CountTrue(mask) by {
      assert MaskCount(mask + pads) == MaskedSum(Ones(|mask + pads|), mask + pads) by {
        MaskCountIsMaskedSum(mask + pads);
      }
      MaskCountIsMaskedSum(mask);
      assert Ones(|mask + pads|) == Ones(|mask|) + Ones(|pads|);
      MaskedSumOfPads(Ones(|mask|), mask, Ones(|pads|));
    }
  }

  /** Accuracies at padded positions are not counted: the accuracy terms do
      not depend on the targets or logits there. */
  lemma AccuracyIgnoresMaskedOut(tars: seq<Vec>, mask: seq<bool>, logits: seq<Vec>, argmax: Vec -> nat,
                                 tars': seq<Vec>, logits': seq<Vec>)
    requires |mask| == |tars| == |logits| == |tars'| == |logits'|
    requires forall i :: 0 <= i < |mask| && mask[i] ==> tars[i] == tars'[i] && logits[i] == logits'[i]
    ensures AccuracyTerms(tars, mask, logits, argmax) == AccuracyTerms(tars', mask, logits', argmax)
  {
    AccuracyCountsValidHits(tars, mask, logits, argmax);
    AccuracyCountsValidHits(tars', mask, logits', argmax);
    assert seq(|mask|, i requires 0 <= i < |mask| => mask[i] && argmax(logits[i]) == argmax(tars[i]))
        == seq(|mask|, i requires 0 <= i < |mask| => mask[i] && argmax(logits'[i]) == argmax(tars'[i]));
  }

  /** Where every valid position is predicted right, the accuracy is exactly one. */
  lemma PerfectPredictionsScoreOne(tars: seq<Vec>, mask: seq<bool>, logits: seq<Vec>, argmax: Vec -> nat)
    requires |mask| == |tars| == |logits|
    requires forall i :: 0 <= i < |mask| && mask[i] ==> argmax(logits[i]) == argmax(tars[i])
    ensures AccuracyTerms(tars, mask, logits, argmax).0 == AccuracyTerms(tars, mask, logits, argmax).1
  {
    AccuracyCountsValidHits(tars, mask, logits, argmax);
    assert seq(|mask|, i requires 0 <= i < |mask| => mask[i] && argmax(logits[i]) == argmax(tars[i])) == mask;
  }

  /** |mask| ones. */
  function Ones(n: nat): (v: seq<real>)
    ensures |v| == n && forall i :: 0 <= i < n ==> v[i] == 1.0
  {
    seq(n, _ => 1.0)
  }

  /** The denominator is the masked sum of ones. */
  lemma {:induction false} MaskCountIsMaskedSum(mask: seq<bool>)
    ensures MaskCount(mask) == MaskedSum(Ones(|mask|), mask)
    decreases |mask|
  {
    if mask != [] {
      var n := |mask| - 1;
      MaskCountIsMaskedSum(mask[..n]);
      assert Ones(|mask|)[..n] == Ones(n);
    }
  }

  /** loss_function as its numerator and denominator: the per-position
      cross-entropy `xent(target, logits)` summed over valid positions, and the
      number of valid positions. */
  function LossTerms(xent: (Vec, Vec) -> real, tars: seq<Vec>, mask: seq<bool>, logits: seq<Vec>): (r: (real, real))
    requires |mask| == |tars| == |logits|
    ensures r.1 == CountTrue(mask) as real
  {
    (MaskedSum(seq(|tars|, i requires 0 <= i < |tars| => xent(tars[i], logits[i])), mask), MaskCount(mask))
  }

  /** Losses at padded positions are not counted: the loss terms do not depend
      on the targets or logits there. */
  lemma LossIgnoresMaskedOut(xent: (Vec, Vec) -> real, tars: seq<Vec>, mask: seq<bool>, logits: seq<Vec>,
                             tars': seq<Vec>, logits': seq<Vec>)
    requires |mask| == |tars| == |logits| == |tars'| == |logits'|
    requires forall i :: 0 <= i < |mask| && mask[i] ==> tars[i] == tars'[i] && logits[i] == logits'[i]
    ensures LossTerms(xent, tars, mask, logits) == LossTerms(xent, tars', mask, logits')
  {
    var lt := seq(|tars|, i requires 0 <= i < |tars| => xent(tars[i], logits[i]));
    var lt' := seq(|tars'|, i requires 0 <= i < |tars'| => xent(tars'[i], logits'[i]));
    MaskedSumIgnoresPads(lt, lt', mask);
  }

  /** Appending padded positions, whatever their targets and logits, leaves
      the loss terms unchanged. */
  lemma LossIgnoresPadding(xent: (Vec, Vec) -> real, tars: seq<Vec>, mask: seq<bool>, logits: seq<Vec>,
                           padTars: seq<Vec>, padLogits: seq<Vec>)
    requires |mask| == |tars| == |logits| && |padLogits| == |padTars|
    ensures LossTerms(xent, tars + padTars, mask + seq(|padTars|, _ => false), logits + padLogits)
         == LossTerms(xent, tars, mask, logits)
  {
    var lt := seq(|tars|, i requires 0 <= i < |tars| => xent(tars[i], logits[i]));
    var pads := seq(|padTars|, _ => false);
    var all := tars + padTars;
    var ltp := seq(|all|, i requires 0 <= i < |all| => xent(all[i], (logits + padLogits)[i]));
    var tail := ltp[|lt|..];
    assert ltp == lt + tail;
    MaskedSumOfPads(lt, mask, tail);
    MaskCountIsMaskedSum(mask + pads);
    MaskCountIsMaskedSum(mask);
    assert Ones(|mask + pads|) == Ones(|mask|) + Ones(|pads|);
    MaskedSumOfPads(Ones(|mask|), mask, Ones(|pads|));
  }
}
