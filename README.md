# Listen, Attend and Spell: the discrete core, in Dafny

This project models the discrete logic of `listenattendspell.py`, a TensorFlow
Listen-Attend-Spell speech recogniser, and proves properties of it. The trained
networks are opaque functions, and floating point is modelled by reals.

- **Data pipeline** (`pipeline.dfy`, module `DataPipeline`):
  - the `filter_lengths` predicate;
  - the frame trimming of `transform`, which keeps a whole number of pyramid blocks;
  - the text encoding of `transform`: lower-case, replace characters outside the
    bracket expression by `?`, wrap in `^`…`$`, then take code points and one-hot
    rows of width 123;
  - the ground-truth mask of `gen_masks`.
- **Listener** (`listener.dfy`, module `Listener`):
  - `ListenerLayer.call`: a bidirectional LSTM, then adjacent time steps are
    concatenated by a reshape and their mask entries are ANDed;
  - `Listener.call`: the stage loop, then the final bidirectional LSTM.
  - The LSTMs are length-preserving functions.
- **Speller** (`decoder.dfy`, module `Decoder`):
  - the input selection of `DecoderCell.call` (teacher-forced input or a
    sampled previous prediction, chosen per example by a uniform draw below
    `frac_pyp`, and only when blending);
  - the cell's state threading: the 7-entry state list, whose last entry is
    the output;
  - `LASModel.listen`;
  - the greedy `LASModel.decode` loop: the batch-size-1 checks, feeding back
    the one-hot of the argmax, and stopping at `$` or after `max_dec` steps.
  - The categorical sample and the uniform draw are parameters, and `argmax`
    is an abstract function.
- **Scoring** (`scoring.dfy`, module `Scoring`):
  - the teacher-forcing slices of `train_step`/`val_step`;
  - the masked numerator/denominator sums of `loss_function` and `acc_function`,
    with the per-position cross-entropy as an opaque function.

The bracket expression at line 181 is modelled exactly as written. It also
admits `(`, `)` and `|`. The program's comments describe only alnum, space,
comma, period and apostrophe. Where that description and the code disagree,
the model follows the code (`CharClass.AsWritten`) and records the difference
under Findings. The text operations, `Transform` included, take the class as a
parameter. `AsWritten` gives the program's behaviour, and `Intended` gives the
corrected one.

Shapes are per example: every listener and cell operation acts on each batch row
independently. The batch axis is kept only where the logic depends on it: the
per-example blend draw, and decode's batch-size-1 check. The Keras `Reshape`
that pairs time steps fails on an odd count. The model returns
`Err(OddTimeSteps)` in that case, and `Err(BatchSizeNotOne)` for the decode
assertion.

## Model

| member | source | states |
|---|---|---|
| DataPipeline.FilterLengths | listenattendspell.py:73-80 | an example is kept iff it has at most 272000 samples and its text has at most max_chars and at most 300 bytes (`tf.minimum(max_chars, 300)`) |
| DataPipeline.TrimFrames | listenattendspell.py:172-176 | the frames kept are a prefix of the spectrogram whose length is a multiple of 2**layers, and fewer than 2**layers frames are dropped |
| DataPipeline.TrimKeepsLongestPrefix | listenattendspell.py:172-176 | no longer prefix with a whole number of 2**layers blocks exists, so the trimmed prefix is the longest such one |
| DataPipeline.InClass | listenattendspell.py:181 | the written bracket expression is the described class (alnum, space, comma, period, apostrophe) plus exactly '(', ')' and '\|'; the intended class is the described one |
| DataPipeline.Lower | listenattendspell.py:180 | each ASCII capital becomes its own lower-case letter (code + 32), no capital is left, and every other character is unchanged |
| DataPipeline.EncodeText | listenattendspell.py:180-188 | the codes are '^', then one code per character (the lowered character if it is in the bracket expression, else '?'), then '$' |
| DataPipeline.EncodeKeepsClassText | listenattendspell.py:180-188 | lower-case text made of class members comes back verbatim between the start and end codes |
| DataPipeline.IntendedCodesInVocabulary | listenattendspell.py:177-188 | with the class the comments describe, every code lies in the stated vocabulary and below voc_dim = 123 |
| DataPipeline.OneHot | listenattendspell.py:190 | a row of width depth that is 1 at the code and 0 everywhere else; all zeros when the code is not below the depth |
| DataPipeline.OneHotRows | listenattendspell.py:190 | one row per code, and row i is the voc_dim-wide one-hot of code i |
| DataPipeline.OneHotSum | listenattendspell.py:190 | a `tf.one_hot` row sums to 1 when the code is below the depth and to 0 (an all-zero row) otherwise |
| DataPipeline.TargetMask | listenattendspell.py:237 | one entry per row; an all-zero row is invalid, and a one-hot row is valid iff its code is below voc_dim |
| DataPipeline.TargetMaskOfEncoding | listenattendspell.py:235-239 | a position of an encoded text is marked valid iff its code is below voc_dim |
| DataPipeline.AsWrittenMaskFalseOnlyAtBar | listenattendspell.py:181-190 | as written, the first and last positions are valid and a character position is marked invalid iff the character is '\|' |
| DataPipeline.IntendedMaskAllValid | listenattendspell.py:235-239 | with the corrected class, every position of an encoded text is valid |
| DataPipeline.BarEncodesToZeroRow | listenattendspell.py:181-190 | as written, "\|" encodes to 94, 124, 36; its middle row is all zeros and is marked as padding |
| DataPipeline.ParenKeptOutsideVocabulary | listenattendspell.py:181-188 | as written, "(" is kept as code 40, a valid position outside the stated vocabulary; the corrected class replaces it by '?' |
| DataPipeline.TargetMaskOfPadding | listenattendspell.py:235-239 | the all-zero rows that padding appends are marked invalid, and the mask of the real rows is unchanged |
| DataPipeline.Transform | listenattendspell.py:166-193 | the logmels are the trimmed prefix; ygt is the one-hot rows of the encoded text (OneHotRows of EncodeText with the class); ygt has len(text)+2 rows that start with the '^' row and end with the '$' row, both valid; as written, gen_masks marks a character's row invalid iff the character is '\|'; with the intended class, every row is valid |
| Listener.PairFrames | listenattendspell.py:264-266 | the reshape halves the number of steps, and output k is the concatenation of steps 2k and 2k+1 |
| Listener.PairFramesKeepsContents | listenattendspell.py:266 | the pairing reshape keeps the row-major contents |
| Listener.PairMask | listenattendspell.py:267-269 | mask entry k is the AND of entries 2k and 2k+1 |
| Listener.ListenerStage | listenattendspell.py:262-271 | a stage succeeds iff the step count is even; it then pairs the bidirectional LSTM's outputs and ANDs the mask |
| Listener.Pyramid | listenattendspell.py:289-290 | on success, features and mask stay aligned; the only failure is an odd step count at some stage |
| Listener.ListenSpec | listenattendspell.py:286-295 | listening succeeds iff the stages do; the final LSTM keeps the length, and the mask is the one the stages produced |
| Listener.PyramidShape | listenattendspell.py:286-295 | the stages succeed iff the frame count is a multiple of 2**stages; the output is frames/2**stages long, and position j is valid iff every frame of block j was |
| Listener.Listen | listenattendspell.py:286-295 | the stage loop equals the recursive pyramid followed by the final LSTM, with the shape and mask properties above |
| Listener.ThreeStagesOn160Frames | listenattendspell.py:286-295 | 160 valid frames through three stages give 20 positions, all valid |
| Decoder.BlendRow | listenattendspell.py:402-411 | the 0/1-multiplier arithmetic selects the sample when blending and the draw is below frac_pyp, and the given input otherwise, with nothing mixed |
| Decoder.BlendBatch | listenattendspell.py:402-411 | each example of a batch is selected by its own uniform draw |
| Decoder.BlendBatchOffIsIdentity | listenattendspell.py:409-411 | without blending, a batch is fed its given inputs verbatim |
| Decoder.CellCore | listenattendspell.py:413-459 | the state threading: LSTM 1 reads [psv, ytu, pcv] of the old state with its (mem1, carry1) and leaves its new (mem1, carry1); LSTM 2 reads LSTM 1's output with the old (mem2, carry2) and gives the new psv and (mem2, carry2); the new pcv is the attention of phi(psv) over the listener features, keys and mask; the logits are chr([psv, pcv]), voc_dim wide, and are also the last state entry (pyp) |
| Decoder.CellCall | listenattendspell.py:383-459 | a cell call is the cell core on the selected input; the output is the last state entry |
| Decoder.CellIgnoresDrawWithoutBlend | listenattendspell.py:402-411 | with blend off, a cell call does not depend on the random draws |
| Decoder.ZeroState | listenattendspell.py:555-558 | the initial state has the state_size widths and is all zeros |
| Decoder.Keys | listenattendspell.py:496-497 | the keys are the psi MLP applied position by position |
| Decoder.ListenAll | listenattendspell.py:487-499 | listen succeeds iff the frame count is a multiple of 2**stages; h and hmask are then exactly what the listener returns, hmask[j] holds iff every frame of block j was valid, h, keys and mask have the same pyramid length, and each key is psi of its feature |
| Decoder.GreedyRun | listenattendspell.py:563-582 | the recursive loop emits at most steps indices, nothing once '$' was the last index, and first the argmax of the step's logits |
| Decoder.GreedyRunStops | listenattendspell.py:563-582 | at most max_dec indices are emitted, '$' can only be last, and the loop stops early only after emitting '$' |
| Decoder.GreedyRunInVocabulary | listenattendspell.py:570-571 | when argmax picks a largest entry, every emitted index is below voc_dim |
| Decoder.GreedyRunFeedsBack | listenattendspell.py:566-579 | the first index is the argmax of the step's logits, and the run continues from its one-hot and the returned state |
| Decoder.RunWithoutEosFillsCap | listenattendspell.py:581-582 | a run that never predicts '$' emits exactly max_dec indices |
| Decoder.GreedyDecode | listenattendspell.py:563-582 | the while loop's output equals the greedy run from '^'; it stops as above, and its indices are in the vocabulary when argmax is a true argmax |
| Decoder.DecodeExample | listenattendspell.py:536-585 | one example is decoded iff its frame count suits the pyramid; the result is the greedy run over its listener output |
| Decoder.Decode | listenattendspell.py:526-585 | the call fails with BatchSizeNotOne unless both inputs hold exactly one example; otherwise it decodes that example as above |
| Scoring.DropLast | listenattendspell.py:664-665 | `[:-1]`: one item fewer (empty stays empty), and item i is kept at i |
| Scoring.DropFirst | listenattendspell.py:667-668 | `[1:]`: one item fewer (empty stays empty), and item i+1 moves to i |
| Scoring.TeacherForcing | listenattendspell.py:664-668 | step i is fed row i and must predict row i+1; each mask entry stays with its row; one row fewer, and empty stays empty |
| Scoring.TeacherForcingRoundTrip | listenattendspell.py:664-668 | inputs plus the last row, and the first row plus the targets, both rebuild the ground truth (rows and masks); each target is the next input |
| Scoring.CatCodes | listenattendspell.py:180-188 | "cat" encodes to 94, 99, 97, 116, 36 |
| Scoring.CatMaskAllValid | listenattendspell.py:237 | every row of "^cat$" is marked valid |
| Scoring.CatTeacherForcing | listenattendspell.py:664-668 | "^cat$" gives four steps fed '^','c','a','t' that predict 'c','a','t','$', all valid |
| Scoring.MaskedSum | listenattendspell.py:625-627 | the masked sum of non-negative values is non-negative, and it is 0 when no position is valid |
| Scoring.MaskCount | listenattendspell.py:627 | the denominator `reduce_sum(mask)` is the number of valid positions |
| Scoring.MaskedSumOfPads | listenattendspell.py:624-627 | appending padded positions, whatever their values, leaves the masked sum unchanged |
| Scoring.MaskedSumIgnoresPads | listenattendspell.py:624-627 | values at padded positions do not affect the masked sum |
| Scoring.MaskedSumBounds | listenattendspell.py:637-640 | values in [0, 1] give a masked sum between 0 and the number of valid positions |
| Scoring.Hits | listenattendspell.py:634-636 | a position is a hit iff the predicted index equals the target index |
| Scoring.AccuracyTerms | listenattendspell.py:632-640 | the accuracy denominator is the number of valid positions, and 0 ≤ numerator ≤ denominator |
| Scoring.AccuracyCountsValidHits | listenattendspell.py:632-640 | the accuracy numerator counts valid positions predicted right, the denominator counts valid positions, and numerator ≤ denominator |
| Scoring.AccuracyIgnoresMaskedOut | listenattendspell.py:632-640 | the accuracy sums do not depend on targets or logits at padded positions |
| Scoring.AccuracyIgnoresPadding | listenattendspell.py:632-640 | appending padded positions leaves both accuracy sums unchanged |
| Scoring.PerfectPredictionsScoreOne | listenattendspell.py:632-640 | when every valid position is predicted right, the numerator equals the denominator |
| Scoring.LossTerms | listenattendspell.py:622-627 | the loss denominator is the number of valid positions |
| Scoring.LossIgnoresMaskedOut | listenattendspell.py:622-627 | the loss sums do not depend on targets or logits at padded positions |
| Scoring.LossIgnoresPadding | listenattendspell.py:622-627 | appending padded positions, whatever their targets and logits, leaves the loss sums unchanged |

## Left out

- The LSTM, Dense and Attention numerics, softmax, and the categorical cross-entropy are opaque functions. Only their shapes are modelled: BiLstm preserves length, and the chr MLP gives voc_dim logits.
- The identity-matrix trick that extracts attention weights (`training == False`), and the global `awl` list it appends to, are side effects with no effect on the outputs.
- Random sampling (`OneHotCategorical` and `tf.random.uniform`) is not modelled. Its results are parameters (`Draw`, `BlendBatch`'s draws). Decode passes a fixed draw, which does not matter with blend off.
- `tf.argmax` is an abstract parameter. The property that it picks a largest entry (`IsArgmaxFn`) is a hypothesis where used; tie-breaking is not modelled.
- The spectrogram, wave augmentation, normalization and the logmel mask (`gen_masks`, first half) are signal processing, outside this model.
- The dataset plumbing (`tfds`, `padded_batch`, shuffling) is not modelled; `TargetMaskOfPadding` states only what zero padding does to the mask.
- The training loop, optimizer and learning-rate schedule, checkpoints, printing, GPU setup and `TestModel` are not modelled.
- `LASModel.call` runs the cell over the teacher-forced inputs through Keras `layers.RNN` with a mask. That scan is Keras behaviour and is not modelled; one cell step is.
- UTF-8 decoding is not modelled: text is a sequence of code points, so multi-byte characters and the replacement character of `unicode_decode` are left out. `tf.strings.lower` and `[:alnum:]` are taken as ASCII-only.
- `tf.squeeze` of the decoded stack, which turns a one-element result into a scalar, is not modelled.
- Float arithmetic is modelled by reals, so rounding is not modelled. Neither is the division `sum / count` in `loss_function` and `acc_function`, which gives NaN when no position is valid. Both are kept as numerator/denominator pairs.
- Scoring.LossTerms: the loss numerator is stated only through the padding lemmas, because the cross-entropy itself is opaque.

## Findings

| source | as written | input that shows it | evidently intended | confidence | as-written member | corrected member |
|---|---|---|---|---|---|---|
| listenattendspell.py:181 | the bracket expression `[^([:alnum:]\| \|,\|.\|\')]` also keeps '(', ')' and '\|'. '\|' has code 124, which is not below voc_dim 123, so `tf.one_hot` makes an all-zero row and `gen_masks` marks that character as padding: it drops out of loss and accuracy. '(' and ')' are kept as codes 40 and 41, outside the stated vocabulary | the text "\|" (and "(") | keep only alnum, space, comma, period and apostrophe, and replace everything else by '?' (63), so every row is a proper one-hot inside the vocabulary | not executed | DataPipeline.BarEncodesToZeroRow | DataPipeline.IntendedMaskAllValid |
