/** The discrete parts of the data pipeline: the length filter, the frame
    trimming and text encoding done by `transform`, and the ground-truth mask
    derived by `gen_masks`. */
module DataPipeline {
  import opened Tensors

  /** voc_dim: one more than the highest code point of the stated vocabulary ('z'). */
  const VocDim: nat := 123
  /** lis_layers: number of pyramid stages of the listener. */
  const LisLayers: nat := 3
  /** 17 s of speech at 16 kHz. */
  const SpeechLimit: nat := 272000
  /** The machine limit on text length that max_chars cannot exceed. */
  const TextLimit: int := 300

  /** The start symbol '^', the end symbol '$' and the unknown symbol '?'. */
  const Sos: nat := 94
  const Eos: nat := 36
  const Unk: nat := 63

  // ---------------------------------------------------------------------
  // filter_lengths

  /** Keep an example iff its waveform has at most SpeechLimit samples and its
      text (counted in bytes, as tf.strings.length does by default) has at most
      min(maxChars, TextLimit) bytes. */
  function FilterLengths(speechSamples: nat, textBytes: nat, maxChars: int): (keep: bool)
    ensures keep <==> speechSamples <= SpeechLimit && textBytes <= maxChars && textBytes <= TextLimit
  {
    var textLim := if maxChars < TextLimit then maxChars else TextLimit;
    speechSamples <= SpeechLimit && textBytes <= textLim
  }

  // ---------------------------------------------------------------------
  // transform: frame trimming

  /** Keep the frames that the listener pyramid can consume without leftovers:
      nh = nf // 2**layers hidden positions, so nh * 2**layers frames. */
  function TrimFrames<F>(sf: seq<F>, layers: nat): (sp: seq<F>)
    ensures |sp| == |sf| - |sf| % Pow2(layers)
    ensures |sp| % Pow2(layers) == 0
    ensures |sf| - Pow2(layers) < |sp| <= |sf|
    ensures sp == sf[..|sp|]
  {
    sf[..WholeBlocks(|sf|, Pow2(layers))]
  }

  /** nh * pd where nh = n // pd: the largest multiple of pd not above n. */
  function WholeBlocks(n: nat, pd: nat): (m: nat)
    requires pd >= 1
    ensures m == n - n % pd && m % pd == 0 && n - pd < m <= n
  {
    TrimArith(n, pd);
    (n / pd) * pd
  }

  lemma TrimArith(n: nat, pd: nat)
    requires pd >= 1
    ensures (n / pd) * pd == n - n % pd
    ensures ((n / pd) * pd) % pd == 0
    ensures n - pd < (n / pd) * pd <= n
  {
    var nh := n / pd;
    DivModUnique(n, pd, nh, n % pd);
    DivModUnique(nh * pd, pd, nh, 0);
  }

  /** The trimmed prefix is the longest one whose length is a multiple of 2**layers. */
  lemma TrimKeepsLongestPrefix<F>(sf: seq<F>, layers: nat, n: nat)
    requires n <= |sf| && n % Pow2(layers) == 0
    ensures n <= |TrimFrames(sf, layers)|
  {
    var pd := Pow2(layers);
    TrimArith(|sf|, pd);
    MultipleBelow(n, |sf|, pd);
  }

  lemma MultipleBelow(m: nat, n: nat, pd: nat)
    requires pd >= 1 && m <= n && m % pd == 0
    ensures m <= (n / pd) * pd
  {
    var k, nh := m / pd, n / pd;
    DivModUnique(m, pd, k, 0);
    DivModUnique(n, pd, nh, n % pd);
    if nh < k {
      MulLe(nh + 1, k, pd);
    }
    MulLe(k, nh, pd);
  }

  // ---------------------------------------------------------------------
  // transform: text encoding

  /** Which bracket expression the replacement uses: the one written in the
      program, or the one its comments describe. */
  datatype CharClass = AsWritten | Intended

  /** RE2's [:alnum:], which is ASCII only. */
  predicate IsAlnum(c: char)
  {
    '0' <= c <= '9' || 'A' <= c <= 'Z' || 'a' <= c <= 'z'
  }

  /** Membership in the bracket expression whose complement is replaced by '?'.
      As written, `[^([:alnum:]| |,|.|\')]` also lists '(', ')' and '|'
      literally; the comments describe only alnum, space, comma, period and
      apostrophe. */
  predicate InClass(cls: CharClass, c: char): (b: bool)
    ensures b <==> IsAlnum(c) || c in {' ', ',', '.', '\''} || (cls == AsWritten && c in {'(', ')', '|'})
  {
    match cls
    case AsWritten => IsAlnum(c) || c in {'(', '|', ' ', ',', '.', '\'', ')'}
    case Intended => IsAlnum(c) || c in {' ', ',', '.', '\''}
  }

  /** tf.strings.lower with its default (ASCII) encoding. */
  function Lower(c: char): (l: char)
    ensures !('A' <= l <= 'Z')
    ensures 'A' <= c <= 'Z' ==> 'a' <= l <= 'z' && l as int == c as int + 32
    ensures !('A' <= c <= 'Z') ==> l == c
  {
    if 'A' <= c <= 'Z' then (c as int + 32) as char else c
  }

  /** lower, regex_replace, join with '^' and '$', unicode_decode. The text is
      taken as a sequence of code points. */
  function EncodeText(cls: CharClass, text: string): (codes: seq<nat>)
    ensures |codes| == |text| + 2
    ensures codes[0] == Sos && codes[|codes| - 1] == Eos
    ensures forall i :: 0 <= i < |text| ==>
              codes[i + 1] == (if InClass(cls, Lower(text[i])) then Lower(text[i]) as nat else Unk)
  {
    [Sos] + seq(|text|, i requires 0 <= i < |text| =>
      if InClass(cls, Lower(text[i])) then Lower(text[i]) as nat else Unk) + [Eos]
  }

  /** The symbols of the stated vocabulary: a-z, 0-9, space, comma, period,
      apostrophe, and the unknown, start and end symbols. */
  predicate InVocabulary(code: nat)
  {
    97 <= code <= 122 || 48 <= code <= 57 || code in {32, 44, 46, 39, Unk, Sos, Eos}
  }

  /** Text already made of lower-case class members is encoded verbatim
      between the start and end symbols. */
  lemma EncodeKeepsClassText(cls: CharClass, text: string)
    requires forall i :: 0 <= i < |text| ==> InClass(cls, text[i]) && !('A' <= text[i] <= 'Z')
    ensures EncodeText(cls, text)[1..|text| + 1] == seq(|text|, i requires 0 <= i < |text| => text[i] as nat)
  {
    var codes := EncodeText(cls, text);
    forall i | 0 <= i < |text|
      ensures codes[1..|text| + 1][i] == text[i] as nat
    {
      assert codes[i + 1] == text[i] as nat;
    }
  }

  /** With the intended class every code lies in the stated vocabulary, below VocDim. */
  lemma IntendedCodesInVocabulary(text: string)
    ensures forall i :: 0 <= i < |text| + 2 ==>
              InVocabulary(EncodeText(Intended, text)[i]) && EncodeText(Intended, text)[i] < VocDim
  {
    var codes := EncodeText(Intended, text);
    forall i | 0 <= i < |text| + 2
      ensures InVocabulary(codes[i]) && codes[i] < VocDim
    {
      if 0 < i < |text| + 1 {
        var l := Lower(text[i - 1]);
        assert codes[i] == (if InClass(Intended, l) then l as nat else Unk);
      }
    }
  }

  /** tf.one_hot(code, depth): a row of zeros with a 1 at the code, or all
      zeros when the code is not below the depth. */
  function OneHot(code: nat, depth: nat): (v: Vec)
    ensures |v| == depth
    ensures code < depth ==> v[code] == 1.0
    ensures forall j :: 0 <= j < depth && j != code ==> v[j] == 0.0
  {
    seq(depth, j => if j == code then 1.0 else 0.0)
  }

  /** A one-hot row sums to 1 exactly when its code is below the depth. */
  lemma {:induction false} OneHotSum(code: nat, depth: nat)
    ensures Sum(OneHot(code, depth)) == if code < depth then 1.0 else 0.0
  {
    if depth > 0 {
      var v := OneHot(code, depth);
      assert v[..depth - 1] == OneHot(code, depth - 1);
      OneHotSum(code, depth - 1);
    }
  }

  /** The ground-truth rows `ygt` of an example. */
  function OneHotRows(codes: seq<nat>): (rows: seq<Vec>)
    ensures |rows| == |codes|
    ensures forall i :: 0 <= i < |codes| ==> rows[i] == OneHot(codes[i], VocDim)
  {
    seq(|codes|, i requires 0 <= i < |codes| => OneHot(codes[i], VocDim))
  }

  // ---------------------------------------------------------------------
  // gen_masks: the ground-truth mask

  /** tf.cast(tf.reduce_sum(ygt, axis=-1), tf.bool): a row is valid iff its sum is not zero. */
  function TargetMask(ygt: seq<Vec>): (mask: seq<bool>)
    ensures |mask| == |ygt|
    ensures forall i :: 0 <= i < |ygt| && ygt[i] == Zeros(|ygt[i]|) ==> !mask[i]
    ensures forall i, c: nat :: 0 <= i < |ygt| && ygt[i] == OneHot(c, VocDim) ==> (mask[i] <==> c < VocDim)
  {
    assert forall i :: 0 <= i < |ygt| && ygt[i] == Zeros(|ygt[i]|) ==> Sum(ygt[i]) == 0.0 by {
      forall i | 0 <= i < |ygt| && ygt[i] == Zeros(|ygt[i]|) {
        ZerosSum(|ygt[i]|);
      }
    }
    assert forall c: nat :: Sum(OneHot(c, VocDim)) == if c < VocDim then 1.0 else 0.0 by {
      forall c: nat {
        OneHotSum(c, VocDim);
      }
    }
    seq(|ygt|, i requires 0 <= i < |ygt| => Sum(ygt[i]) != 0.0)
  }

  /** A position of an encoded text is valid exactly when its code is below VocDim. */
  lemma TargetMaskOfEncoding(cls: CharClass, text: string)
    ensures forall i :: 0 <= i < |text| + 2 ==>
              (TargetMask(OneHotRows(EncodeText(cls, text)))[i] <==> EncodeText(cls, text)[i] < VocDim)
  {
    var codes := EncodeText(cls, text);
    forall i | 0 <= i < |text| + 2
      ensures TargetMask(OneHotRows(codes))[i] <==> codes[i] < VocDim
    {
      OneHotSum(codes[i], VocDim);
    }
  }

  /** As written, the only character whose position is marked invalid is '|'
      (code 124, not below VocDim). */
  lemma AsWrittenMaskFalseOnlyAtBar(text: string)
    ensures forall i :: 0 <= i < |text| ==>
              (!TargetMask(OneHotRows(EncodeText(AsWritten, text)))[i + 1] <==> text[i] == '|')
    ensures TargetMask(OneHotRows(EncodeText(AsWritten, text)))[0]
    ensures TargetMask(OneHotRows(EncodeText(AsWritten, text)))[|text| + 1]
  {
    TargetMaskOfEncoding(AsWritten, text);
    var codes := EncodeText(AsWritten, text);
    forall i | 0 <= i < |text|
      ensures codes[i + 1] >= VocDim <==> text[i] == '|'
    {
      AsWrittenCodeOutOfRange(text[i]);
    }
  }

  lemma AsWrittenCodeOutOfRange(c: char)
    ensures (if InClass(AsWritten, Lower(c)) then Lower(c) as nat else Unk) >= VocDim <==> c == '|'
  {
    var l := Lower(c);
    if InClass(AsWritten, l) && l as nat >= VocDim {
      assert l == '|';
    }
  }

  /** With the intended class every position of an encoded text is valid. */
  lemma IntendedMaskAllValid(text: string)
    ensures forall i :: 0 <= i < |text| + 2 ==> TargetMask(OneHotRows(EncodeText(Intended, text)))[i]
  {
    TargetMaskOfEncoding(Intended, text);
    IntendedCodesInVocabulary(text);
  }

  /** The text "|" as written: its middle row is all zeros and is marked as padding. */
  lemma BarEncodesToZeroRow()
    ensures EncodeText(AsWritten, "|") == [Sos, 124, Eos]
    ensures OneHotRows(EncodeText(AsWritten, "|"))[1] == Zeros(VocDim)
    ensures !TargetMask(OneHotRows(EncodeText(AsWritten, "|")))[1]
  {
    var codes := EncodeText(AsWritten, "|");
    assert codes[1] == 124;
    assert codes == [Sos, 124, Eos];
    assert OneHot(124, VocDim) == Zeros(VocDim);
    AsWrittenMaskFalseOnlyAtBar("|");
  }

  /** The text "(" as written: kept as code 40, a valid position outside the stated vocabulary. */
  lemma ParenKeptOutsideVocabulary()
    ensures EncodeText(AsWritten, "(") == [Sos, 40, Eos]
    ensures !InVocabulary(40) && TargetMask(OneHotRows(EncodeText(AsWritten, "(")))[1]
    ensures EncodeText(Intended, "(") == [Sos, Unk, Eos]
  {
    var codes := EncodeText(AsWritten, "(");
    assert codes[1] == 40;
    assert codes == [Sos, 40, Eos];
    assert EncodeText(Intended, "(")[1] == Unk;
    TargetMaskOfEncoding(AsWritten, "(");
  }

  /** padded_batch appends all-zero rows; they are marked invalid and leave
      the mask of the real rows unchanged. */
  lemma TargetMaskOfPadding(ygt: seq<Vec>, pad: nat, width: nat)
    ensures TargetMask(ygt + seq(pad, _ => Zeros(width))) == TargetMask(ygt) + seq(pad, _ => false)
  {
    var padded := ygt + seq(pad, _ => Zeros(width));
    ZerosSum(width);
    assert forall i :: |ygt| <= i < |padded| ==> padded[i] == Zeros(width);
  }

  lemma {:induction false} ZerosSum(n: nat)
    ensures Sum(Zeros(n)) == 0.0
  {
    if n > 0 {
      assert Zeros(n)[..n - 1] == Zeros(n - 1);
      ZerosSum(n - 1);
    }
  }

  // ---------------------------------------------------------------------
  // transform as a whole

  /** The fields of one example that the modelled core consumes. */
  datatype Example = Example(logmels: seq<Vec>, ygt: seq<Vec>)

  /** `transform` from a computed spectrogram and the text: every frame kept is
      one the pyramid consumes. With the bracket expression as written, gen_masks
      drops exactly the rows of '|'; with the class as intended it keeps every row. */
  function Transform(cls: CharClass, spectrogram: seq<Vec>, text: string): (e: Example)
    ensures |e.logmels| % Pow2(LisLayers) == 0
    ensures |spectrogram| - Pow2(LisLayers) < |e.logmels| <= |spectrogram|
    ensures e.logmels == spectrogram[..|e.logmels|]
    ensures e.ygt == OneHotRows(EncodeText(cls, text))
    ensures |e.ygt| == |text| + 2
    ensures e.ygt[0] == OneHot(Sos, VocDim) && e.ygt[|text| + 1] == OneHot(Eos, VocDim)
    ensures TargetMask(e.ygt)[0] && TargetMask(e.ygt)[|text| + 1]
    ensures cls == AsWritten ==>
              forall i :: 0 <= i < |text| ==> (TargetMask(e.ygt)[i + 1] <==> text[i] != '|')
    ensures cls == Intended ==> forall i :: 0 <= i < |e.ygt| ==> TargetMask(e.ygt)[i]
  {
    AsWrittenMaskFalseOnlyAtBar(text);
    IntendedMaskAllValid(text);
    TargetMaskOfEncoding(cls, text);
    Example(TrimFrames(spectrogram, LisLayers), OneHotRows(EncodeText(cls, text)))
  }
}
