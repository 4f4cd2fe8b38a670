/** The 48 kHz pipeline in front of the Opus encoder (src/audio/resample.rs): a buffer that resamples
    by linear interpolation, emits 960-frame stereo blocks and trims what it no longer needs.
    Positions are exact: output frame k sits at input frame k * rate / 48000. */
module Resampler {

  type Sample = x: int | -32768 <= x <= 32767

  const OUT_RATE := 48000
  const BLOCK := 960

  /** The highest rate at which trimming never cuts into frames that are still needed. */
  const SAFE_RATE := 144000

  /* ---- One output frame ---- */

  function Whole(rate: nat, k: nat): nat {
    k * rate / OUT_RATE
  }

  function Part(rate: nat, k: nat): nat {
    k * rate % OUT_RATE
  }

  /** Nearest integer to n / 48000, halves away from zero. */
  function RoundOut(n: int): int {
    if n >= 0 then (2 * n + OUT_RATE) / (2 * OUT_RATE) else -((-2 * n + OUT_RATE) / (2 * OUT_RATE))
  }

  function ClampToI16(n: int): Sample {
    var v := RoundOut(n);
    if v < -32768 then -32768 else if v > 32767 then 32767 else v
  }

  function Blend(a: Sample, b: Sample, part: nat): int {
    OUT_RATE * a + part * (b - a)
  }

  function Lerp(a: Sample, b: Sample, part: nat): Sample {
    ClampToI16(Blend(a, b, part))
  }

  /** An interpolated sample lies between its neighbours, so the clamp never changes it. */
  lemma LerpBetween(a: Sample, b: Sample, part: nat)
    requires part < OUT_RATE
    ensures Lerp(a, b, part) == RoundOut(Blend(a, b, part))
    ensures a <= b ==> a <= Lerp(a, b, part) <= b
    ensures b <= a ==> b <= Lerp(a, b, part) <= a
    ensures Lerp(a, b, 0) == a
  {
    BlendWithin(a, b, part);
    RoundWithin(Blend(a, b, part), if a <= b then a else b, if a <= b then b else a);
    BlendWithin(a, b, 0);
    RoundWithin(Blend(a, b, 0), a, a);
  }

  /** The integer nearest to the point at part / 48000 of the way from a to b, halves away from zero. */
  predicate Nearest(y: int, a: int, b: int, part: nat) {
    var exact, off := (48000 - part) * a + part * b, 2 * (48000 * y - ((48000 - part) * a + part * b));
    && -48000 <= off <= 48000
    && (off == 48000 ==> exact > 0)
    && (off == -48000 ==> exact < 0)
  }

  /** The interpolation is linear: between any two samples it is that integer and no other. */
  lemma LerpIsNearestIff(y: int, a: Sample, b: Sample, part: nat)
    requires part < OUT_RATE
    ensures y == Lerp(a, b, part) <==> Nearest(y, a, b, part)
  {
    LerpBetween(a, b, part);
    var exact := (48000 - part) * a + part * b;
    assert Blend(a, b, part) == exact;
    hide Blend, Lerp;
    RoundIsNearestIff(y, exact);
  }

  lemma RoundIsNearestIff(y: int, n: int)
    ensures y == RoundOut(n) <==>
            var off := 2 * (48000 * y - n);
            -48000 <= off <= 48000 && (off == 48000 ==> n > 0) && (off == -48000 ==> n < 0)
  {
    if n >= 0 {
      var q, r := (2 * n + 48000) / 96000, (2 * n + 48000) % 96000;
      assert 2 * n + 48000 == 96000 * q + r;
    } else {
      var q, r := (-2 * n + 48000) / 96000, (-2 * n + 48000) % 96000;
      assert -2 * n + 48000 == 96000 * q + r;
    }
  }

  lemma BlendWithin(a: Sample, b: Sample, part: nat)
    requires part < OUT_RATE
    ensures a <= b ==> OUT_RATE * a <= Blend(a, b, part) <= OUT_RATE * b
    ensures b <= a ==> OUT_RATE * b <= Blend(a, b, part) <= OUT_RATE * a
    ensures part == 0 ==> Blend(a, b, part) == OUT_RATE * a
  {
    var d := if a <= b then b - a else a - b;
    MulOrder(part, OUT_RATE, d);
    MulOrder(0, part, d);
    assert part * (b - a) == if a <= b then part * d else -(part * d);
  }

  lemma RoundWithin(n: int, lo: int, hi: int)
    requires OUT_RATE * lo <= n <= OUT_RATE * hi
    ensures lo <= RoundOut(n) <= hi
  {
  }

  /* ---- The whole-stream resampler ---- */

  function Column(ch: nat, side: nat): nat {
    if ch >= 2 then side else 0
  }

  /** Output frame k needs input frames Whole(k) and Whole(k) + 1. */
  predicate Supported(rate: nat, frames: nat, k: nat) {
    Whole(rate, k) + 1 < frames
  }

  function OutSample(rate: nat, ch: nat, stream: seq<Sample>, k: nat, side: nat): Sample
    requires ch > 0 && side < 2 && Supported(rate, |stream| / ch, k)
  {
    var f := Whole(rate, k);
    InFrame(ch, |stream|, f + 1, Column(ch, side));
    InFrame(ch, |stream|, f, Column(ch, side));
    Lerp(stream[f * ch + Column(ch, side)], stream[(f + 1) * ch + Column(ch, side)], Part(rate, k))
  }

  predicate CanResample(rate: nat, ch: nat, stream: seq<Sample>, n: nat) {
    ch > 0 && (n > 0 ==> Supported(rate, |stream| / ch, n - 1))
  }

  /** The first n stereo output frames of a stream. */
  function Resampled(rate: nat, ch: nat, stream: seq<Sample>, n: nat): seq<Sample>
    requires CanResample(rate, ch, stream, n)
  {
    seq(2 * n, j requires 0 <= j < 2 * n =>
      WholeMonotone(rate, j / 2, n - 1);
      OutSample(rate, ch, stream, j / 2, j % 2))
  }

  /** How many output frames, and blocks of them, a number of input frames supports. */
  function SupportedFrames(rate: nat, frames: nat): nat
    requires rate > 0
  {
    if frames <= 1 then 0 else (OUT_RATE * (frames - 1) + rate - 1) / rate
  }

  function Blocks(rate: nat, frames: nat): nat
    requires rate > 0
  {
    SupportedFrames(rate, frames) / BLOCK
  }

  lemma SupportedIff(rate: nat, frames: nat, k: nat)
    requires rate > 0
    ensures Supported(rate, frames, k) <==> k < SupportedFrames(rate, frames)
  {
    if frames > 1 {
      var x := OUT_RATE * (frames - 1);
      // k * rate < x  <==>  k < ceil(x / rate)
      assert Supported(rate, frames, k) <==> k * rate < x;
      CeilIff(k, rate, x);
    }
  }

  lemma CeilIff(k: nat, d: nat, x: nat)
    requires d > 0
    ensures k * d < x <==> k < (x + d - 1) / d
  {
    var q, r := (x + d - 1) / d, (x + d - 1) % d;
    assert x + d - 1 == q * d + r;
    if k < q {
      assert k * d <= (q - 1) * d;
    } else {
      assert k * d >= q * d;
    }
  }

  /** A position n, a whole number of blocks, at which the next block is not complete. */
  lemma BlocksAre(rate: nat, frames: nat, n: nat, k: nat)
    requires rate > 0 && n % BLOCK == 0 && n <= k < n + BLOCK
    requires n > 0 ==> Supported(rate, frames, n - 1)
    requires !Supported(rate, frames, k)
    ensures n == BLOCK * Blocks(rate, frames)
  {
    hide Supported, SupportedFrames;
    SupportedIff(rate, frames, k);
    if n > 0 {
      SupportedIff(rate, frames, n - 1);
    }
    BlockQuotient(n, SupportedFrames(rate, frames));
  }

  /** The block count is the largest one: block b is complete exactly if it is counted. */
  lemma BlockCompleteIff(rate: nat, frames: nat, b: nat)
    requires rate > 0
    ensures Supported(rate, frames, BLOCK * b + BLOCK - 1) <==> b < Blocks(rate, frames)
  {
    hide Supported;
    SupportedIff(rate, frames, BLOCK * b + BLOCK - 1);
  }

  lemma BlockQuotient(n: nat, x: nat)
    requires n % BLOCK == 0 && n <= x < n + BLOCK
    ensures n == BLOCK * (x / BLOCK)
  {
  }

  lemma WholeMonotone(rate: nat, j: nat, k: int)
    requires j <= k
    ensures Whole(rate, j) <= Whole(rate, k)
  {
    assert j * rate <= k * rate;
  }

  lemma InFrame(ch: nat, len: nat, f: nat, col: nat)
    requires ch > 0 && f < len / ch && (col == 0 || col < ch)
    ensures f * ch + col < len
  {
    assert (f + 1) * ch <= len / ch * ch <= len;
  }

  /** Output already determined does not change when the stream grows. */
  lemma ResampledPrefix(rate: nat, ch: nat, stream: seq<Sample>, more: seq<Sample>, n: nat)
    requires CanResample(rate, ch, stream, n)
    ensures CanResample(rate, ch, stream + more, n)
    ensures Resampled(rate, ch, stream + more, n) == Resampled(rate, ch, stream, n)
  {
    FramesGrow(ch, |stream|, |more|);
    forall j | 0 <= j < 2 * n
      ensures Resampled(rate, ch, stream + more, n)[j] == Resampled(rate, ch, stream, n)[j]
    {
      WholeMonotone(rate, j / 2, n - 1);
      InFrame(ch, |stream|, Whole(rate, j / 2), Column(ch, j % 2));
      InFrame(ch, |stream|, Whole(rate, j / 2) + 1, Column(ch, j % 2));
    }
  }

  lemma FramesGrow(ch: nat, a: nat, b: nat)
    requires ch > 0
    ensures a / ch <= (a + b) / ch
  {
    DivLeast(a + b, ch, a / ch);
  }

  lemma MulOrder(a: int, b: int, d: nat)
    ensures a <= b ==> a * d <= b * d
    ensures a < b ==> a * d + d <= b * d
  {
    if a < b {
      var k: nat := b - a - 1;
      Distribute(a, 1, d);
      Distribute(a + 1, k, d);
      Product(k, d);
    }
  }

  lemma Distribute(x: int, y: int, d: int)
    ensures (x + y) * d == x * d + y * d
  {
  }

  lemma Product(x: nat, y: nat)
    ensures x * y >= 0
  {
  }

  /** x / d is the greatest q with q * d <= x. */
  lemma DivLeast(x: nat, d: nat, q: nat)
    requires d > 0
    ensures q * d <= x <==> q <= x / d
  {
    MulOrder(q, x / d, d);
    MulOrder(x / d, q, d);
  }

  /** Interpolating a stream that already runs at 48 kHz returns it unchanged: skipping the
      arithmetic there, as the pass-through state does, loses nothing. */
  lemma ResampledIdentity(stream: seq<Sample>, n: nat)
    requires CanResample(48000, 2, stream, n)
    ensures 2 * n <= |stream| && Resampled(48000, 2, stream, n) == stream[..2 * n]
  {
    forall j | 0 <= j < 2 * n
      ensures j < |stream| && Resampled(48000, 2, stream, n)[j] == stream[j]
    {
      var k := j / 2;
      assert Whole(48000, k) == k && Part(48000, k) == 0;
      LerpBetween(stream[j], stream[j + 2], 0);
    }
  }

  /* ---- Trimming ---- */

  function SatSub(a: nat, b: nat): nat {
    if a >= b then a - b else 0
  }

  /** The first input frame still wanted once n output frames are out. */
  function KeepFrom(rate: nat, n: nat): nat {
    SatSub(Whole(rate, n), 1)
  }

  /** `trim_resample_prefix`: the samples left and the frame the first of them has. */
  function TrimPrefix(pending: seq<Sample>, rate: nat, next: nat, start: nat, ch: nat): (seq<Sample>, nat) {
    TrimTo(pending, KeepFrom(rate, next), start, ch)
  }

  function TrimTo(pending: seq<Sample>, keep: nat, start: nat, ch: nat): (seq<Sample>, nat) {
    if pending == [] || keep <= start then (pending, start)
    else
      var dropFrames := keep - start;
      var dropSamples := if dropFrames * ch <= |pending| then dropFrames * ch else |pending|;
      if dropSamples > 0 then (pending[dropSamples..], start + dropFrames) else (pending, start)
  }

  /** The samples by which the clip to the buffer's length falls short, once a stream of `len`
      samples has been resampled as far as it goes: the frames counted as dropped but not there. */
  function ClipShortfall(rate: nat, ch: nat, len: nat): nat
    requires rate > 0 && ch > 0
  {
    SatSub(KeepFrom(rate, BLOCK * Blocks(rate, len / ch)) * ch, len)
  }

  /** Never more than three input frames separate neighbouring output frames up to the safe rate. */
  lemma SafeStep(rate: nat, n: nat)
    requires rate <= SAFE_RATE && n > 0
    ensures Whole(rate, n) <= Whole(rate, n - 1) + 3
  {
    assert n * rate == (n - 1) * rate + rate;
  }

  lemma SafeRateNeverClips(rate: nat, ch: nat, len: nat)
    requires 0 < rate <= SAFE_RATE && ch > 0
    ensures ClipShortfall(rate, ch, len) == 0
  {
    var frames := len / ch;
    var n := BLOCK * Blocks(rate, frames);
    if n > 0 {
      SupportedIff(rate, frames, n - 1);
      SafeStep(rate, n);
      MulOrder(KeepFrom(rate, n), frames, ch);
      DivLeast(len, ch, frames);
    }
  }

  /** A stream length at which the clip bites, for any rate above the safe one. */
  function ClippingFrames(rate: nat): nat
    requires rate > SAFE_RATE
  {
    Whole(rate, 50 * BLOCK - 1) + 2
  }

  lemma HighRateClips(rate: nat, ch: nat)
    requires rate > SAFE_RATE && ch > 0
    ensures var f := ClippingFrames(rate);
            && Blocks(rate, f) == 50 && KeepFrom(rate, 50 * BLOCK) == rate - 1 && f <= rate - 2
            && f * ch / ch == f && ClipShortfall(rate, ch, f * ch) == (rate - 1 - f) * ch > 0
  {
    var f := ClippingFrames(rate);
    assert Whole(rate, 48000) == rate;
    assert Whole(rate, 48959) >= Whole(rate, 47999) + 1;
    BlocksAre(rate, f, 48000, 48959);
    ExactFrames(f, ch);
    assert (rate - 1) * ch - f * ch == (rate - 1 - f) * ch;
    MulOrder(0, rate - 1 - f, ch);
  }

  lemma ExactFrames(f: nat, ch: nat)
    requires ch > 0
    ensures f * ch / ch == f
  {
    DivLeast(f * ch, ch, f);
    DivLeast(f * ch, ch, f * ch / ch);
    MulOrder(f, f * ch / ch, ch);
  }

  /** Trimming is safe for every stream exactly up to 144 kHz. */
  lemma ClipFreeIff(rate: nat, ch: nat)
    requires rate > 0 && ch > 0
    ensures (forall len: nat :: ClipShortfall(rate, ch, len) == 0) <==> rate <= SAFE_RATE
  {
    if rate <= SAFE_RATE {
      forall len: nat ensures ClipShortfall(rate, ch, len) == 0 { SafeRateNeverClips(rate, ch, len); }
    } else {
      HighRateClips(rate, ch);
    }
  }

  /* ---- The buffer ---- */

  datatype PipelineState =
    | Stereo48kPassthrough
    | Resample(inRate: nat, inChannels: nat, nextOutFrame: nat, bufferStartFrame: nat)

  predicate PassesThrough(rate: nat, ch: nat) {
    rate == 48000 && ch == 2
  }

  /** Output frames a pop leaves behind, in all, when a stream of `len` samples has come in. */
  function OutFrames(rate: nat, ch: nat, len: nat): nat
    requires rate > 0 && ch > 0
  {
    if PassesThrough(rate, ch) then BLOCK * (len / (2 * BLOCK)) else BLOCK * Blocks(rate, len / ch)
  }

  function Padding(rate: nat, ch: nat, len: nat): seq<Sample>
    requires rate > 0 && ch > 0
  {
    if PassesThrough(rate, ch) then [] else seq(ClipShortfall(rate, ch, len), _ => 0)
  }

  predicate RelSupported(rate: nat, ch: nat, pending: seq<Sample>, start: nat, k: nat)
    requires ch > 0
  {
    SatSub(Whole(rate, k), start) + 1 < |pending| / ch
  }

  function RelSample(rate: nat, ch: nat, pending: seq<Sample>, start: nat, k: nat, side: nat): Sample
    requires ch > 0 && side < 2 && RelSupported(rate, ch, pending, start, k)
  {
    var f := SatSub(Whole(rate, k), start);
    InFrame(ch, |pending|, f + 1, Column(ch, side));
    InFrame(ch, |pending|, f, Column(ch, side));
    Lerp(pending[f * ch + Column(ch, side)], pending[(f + 1) * ch + Column(ch, side)], Part(rate, k))
  }

  /* ---- The trimmed buffer against the whole stream ---- */

  lemma DropFrames(len: nat, ch: nat, start: nat)
    requires ch > 0 && start * ch <= len
    ensures (len - start * ch) / ch == len / ch - start
  {
    var q := (len - start * ch) / ch;
    assert (q + start) * ch == q * ch + start * ch;
    DivLeast(len, ch, q + start);
    assert (q + 1 + start) * ch == q * ch + ch + start * ch;
    DivLeast(len, ch, q + 1 + start);
  }

  lemma RelativeIsAbsolute(rate: nat, ch: nat, stream: seq<Sample>, start: nat, k: nat)
    requires ch > 0 && start * ch <= |stream| && start <= Whole(rate, k)
    ensures var pending := stream[start * ch..];
            && |pending| / ch == |stream| / ch - start
            && (RelSupported(rate, ch, pending, start, k) <==> Supported(rate, |stream| / ch, k))
            && (Supported(rate, |stream| / ch, k) ==>
                  forall side: nat :: side < 2 ==>
                    RelSample(rate, ch, pending, start, k, side) == OutSample(rate, ch, stream, k, side))
  {
    DropFrames(|stream|, ch, start);
    if Supported(rate, |stream| / ch, k) {
      forall side: nat | side < 2
        ensures RelSample(rate, ch, stream[start * ch..], start, k, side) == OutSample(rate, ch, stream, k, side)
      {
        SampleShift(ch, stream, start, Whole(rate, k), Column(ch, side));
        SampleShift(ch, stream, start, Whole(rate, k) + 1, Column(ch, side));
      }
    }
  }

  lemma SampleShift(ch: nat, stream: seq<Sample>, start: nat, f: nat, col: nat)
    requires ch > 0 && start * ch <= |stream| && start <= f < |stream| / ch && (col == 0 || col < ch)
    ensures 0 <= (f - start) * ch + col < |stream| - start * ch && f * ch + col < |stream|
    ensures stream[start * ch..][(f - start) * ch + col] == stream[f * ch + col]
  {
    InFrame(ch, |stream|, f, col);
    SplitDrop(start, f, ch);
  }

  /** What the buffer of a resampling pipeline holds: the stream from frame `start` on, after
      `next` output frames. */
  ghost predicate Holds(rate: nat, ch: nat, stream: seq<Sample>, next: nat, start: nat,
                        pending: seq<Sample>, output: seq<Sample>)
  {
    && rate > 0 && ch > 0 && !PassesThrough(rate, ch) && next % BLOCK == 0
    && start == KeepFrom(rate, next)
    && start * ch <= |stream| && pending == stream[start * ch..]
    && CanResample(rate, ch, stream, next)
    && output == Resampled(rate, ch, stream, next)
  }

  /** The first `reached - next` frames of a block, read at positions relative to the buffer. */
  ghost predicate ReadsBlock(rate: nat, ch: nat, pending: seq<Sample>, start: nat, next: nat, reached: nat,
                             block: seq<Sample>)
  {
    && ch > 0 && next <= reached && |block| == 2 * (reached - next)
    && (forall k :: next <= k < reached ==> RelSupported(rate, ch, pending, start, k))
    && (forall j :: 0 <= j < |block| ==> block[j] == RelSample(rate, ch, pending, start, next + j / 2, j % 2))
  }

  /** y lies linearly between the neighbours of output frame k in a buffer that begins at frame `start`. */
  ghost predicate NearestInBuffer(rate: nat, ch: nat, pending: seq<Sample>, start: nat, k: nat, side: nat, y: Sample) {
    var whole, part := k * rate / 48000, k * rate % 48000;
    var f := if whole >= start then whole - start else 0;
    var left := f * ch + if ch >= 2 then side else 0;
    left + ch < |pending| && Nearest(y, pending[left], pending[left + ch], part)
  }

  lemma RelSampleNearest(rate: nat, ch: nat, pending: seq<Sample>, start: nat, k: nat, side: nat)
    requires ch > 0 && side < 2 && RelSupported(rate, ch, pending, start, k)
    ensures NearestInBuffer(rate, ch, pending, start, k, side, RelSample(rate, ch, pending, start, k, side))
  {
    var f := SatSub(Whole(rate, k), start);
    var left := f * ch + Column(ch, side);
    InFrame(ch, |pending|, f + 1, Column(ch, side));
    assert (f + 1) * ch == f * ch + ch;
    LerpIsNearestIff(RelSample(rate, ch, pending, start, k, side), pending[left], pending[left + ch], Part(rate, k));
  }

  lemma ReadsNothing(rate: nat, ch: nat, pending: seq<Sample>, start: nat, next: nat)
    requires ch > 0
    ensures ReadsBlock(rate, ch, pending, start, next, next, [])
  {
  }

  lemma ReadsMore(rate: nat, ch: nat, pending: seq<Sample>, start: nat, next: nat, k: nat, block: seq<Sample>)
    requires ReadsBlock(rate, ch, pending, start, next, k, block) && RelSupported(rate, ch, pending, start, k)
    ensures ReadsBlock(rate, ch, pending, start, next, k + 1,
      block + [RelSample(rate, ch, pending, start, k, 0), RelSample(rate, ch, pending, start, k, 1)])
  {
    hide RelSupported, RelSample;
    var more := block + [RelSample(rate, ch, pending, start, k, 0), RelSample(rate, ch, pending, start, k, 1)];
    forall j | 0 <= j < |more| ensures more[j] == RelSample(rate, ch, pending, start, next + j / 2, j % 2) {
      if j < |block| {
        assert next <= next + j / 2 < k;
      } else {
        assert next + j / 2 == k;
      }
    }
  }

  /** A full block read from the buffer is the next stretch of the whole-stream output. */
  lemma BlockExtends(rate: nat, ch: nat, stream: seq<Sample>, start: nat, next: nat, block: seq<Sample>)
    requires ch > 0 && CanResample(rate, ch, stream, next)
    requires start * ch <= |stream| && start <= Whole(rate, next)
    requires ReadsBlock(rate, ch, stream[start * ch..], start, next, next + BLOCK, block)
    ensures CanResample(rate, ch, stream, next + BLOCK)
    ensures Resampled(rate, ch, stream, next + BLOCK) == Resampled(rate, ch, stream, next) + block
  {
    forall k | next <= k < next + BLOCK ensures Supported(rate, |stream| / ch, k) {
      WholeMonotone(rate, next, k);
      RelativeIsAbsolute(rate, ch, stream, start, k);
    }
    forall j | 0 <= j < 2 * BLOCK ensures block[j] == OutSample(rate, ch, stream, next + j / 2, j % 2) {
      WholeMonotone(rate, next, next + j / 2);
      RelativeIsAbsolute(rate, ch, stream, start, next + j / 2);
    }
    ResampledAppend(rate, ch, stream, next, block);
  }

  lemma ResampledAppend(rate: nat, ch: nat, stream: seq<Sample>, next: nat, block: seq<Sample>)
    requires ch > 0 && CanResample(rate, ch, stream, next)
    requires |block| == 2 * BLOCK && CanResample(rate, ch, stream, next + BLOCK)
    requires forall k :: next <= k < next + BLOCK ==> Supported(rate, |stream| / ch, k)
    requires forall j :: 0 <= j < |block| ==> block[j] == OutSample(rate, ch, stream, next + j / 2, j % 2)
    ensures Resampled(rate, ch, stream, next + BLOCK) == Resampled(rate, ch, stream, next) + block
  {
    var whole := Resampled(rate, ch, stream, next + BLOCK);
    var sofar := Resampled(rate, ch, stream, next);
    forall j | 0 <= j < 2 * next + 2 * BLOCK ensures whole[j] == (sofar + block)[j] {
      if j >= 2 * next {
        var i := j - 2 * next;
        assert next + i / 2 == j / 2 && i % 2 == j % 2;
      }
    }
  }

  /** What a trim does to a suffix of the stream: it leaves a later suffix or, when the stream is
      too short, empties the buffer. */
  lemma TrimKeepsSuffix(ch: nat, stream: seq<Sample>, start: nat, keep: nat)
    requires ch > 0 && start * ch < |stream| && start <= keep
    ensures var (rest, start') := TrimTo(stream[start * ch..], keep, start, ch);
            start' == keep && rest == (if keep * ch <= |stream| then stream[keep * ch..] else [])
  {
    if start < keep {
      MulOrder(start, keep, ch);
      SplitDrop(start, keep, ch);
    }
  }

  lemma SuffixNonEmpty(ch: nat, len: nat, start: nat)
    requires ch > 0 && start < len / ch
    ensures start * ch < len
  {
    DivLeast(len, ch, len / ch);
    MulOrder(start, len / ch, ch);
  }

  lemma SplitDrop(start: nat, keep: nat, ch: nat)
    requires start <= keep
    ensures (keep - start) * ch == keep * ch - start * ch
  {
  }

  lemma RetainedFrames(rate: nat, frames: nat, next: nat, k: nat)
    requires next <= k < next + BLOCK && !Supported(rate, frames, k)
    ensures frames <= KeepFrom(rate, next) + rate / 50 + 3
  {
    assert k * rate == next * rate + (k - next) * rate;
    MulOrder(k - next, BLOCK - 1, rate);
  }

  /** The room left for further blocks; it shrinks with every block. */
  ghost function Room(rate: nat, ch: nat, next: nat, start: nat, pending: seq<Sample>): int
    requires ch > 0
  {
    OUT_RATE * (start + |pending| / ch) - next * rate
  }

  /** One turn of the pop loop: a full block, then the trim to `rest` from frame `start'`. */
  lemma AfterBlock(rate: nat, ch: nat, stream: seq<Sample>, next: nat, start: nat, pending: seq<Sample>,
                   output: seq<Sample>, block: seq<Sample>, rest: seq<Sample>, start': nat)
    requires Holds(rate, ch, stream, next, start, pending, output)
    requires ReadsBlock(rate, ch, pending, start, next, next + BLOCK, block)
    requires TrimPrefix(pending, rate, next + BLOCK, start, ch) == (rest, start')
    requires start' * ch <= |stream|
    ensures pending != []
    ensures Holds(rate, ch, stream, next + BLOCK, start', rest, output + block)
    ensures 0 <= Room(rate, ch, next, start, pending)
    ensures Room(rate, ch, next + BLOCK, start', rest) < Room(rate, ch, next, start, pending)
  {
    hide Resampled, ReadsBlock, TrimPrefix;
    NextAligned(next);
    BlockThenTrim(rate, ch, stream, next, start, pending, output, block, rest, start');
    RoomShrinks(rate, ch, |stream|, next, start, start');
  }

  lemma NextAligned(next: nat)
    requires next % BLOCK == 0
    ensures (next + BLOCK) % BLOCK == 0
  {
  }

  lemma BlockThenTrim(rate: nat, ch: nat, stream: seq<Sample>, next: nat, start: nat, pending: seq<Sample>,
                      output: seq<Sample>, block: seq<Sample>, rest: seq<Sample>, start': nat)
    requires Holds(rate, ch, stream, next, start, pending, output)
    requires ReadsBlock(rate, ch, pending, start, next, next + BLOCK, block)
    requires TrimPrefix(pending, rate, next + BLOCK, start, ch) == (rest, start')
    ensures pending != [] && start' == KeepFrom(rate, next + BLOCK)
    ensures rest == if start' * ch <= |stream| then stream[start' * ch..] else []
    ensures CanResample(rate, ch, stream, next + BLOCK)
    ensures output + block == Resampled(rate, ch, stream, next + BLOCK)
  {
    BlockExtends(rate, ch, stream, start, next, block);
    WholeMonotone(rate, next, next + BLOCK);
    WholeMonotone(rate, next, next + BLOCK - 1);
    SuffixNonEmpty(ch, |stream|, start);
    TrimKeepsSuffix(ch, stream, start, KeepFrom(rate, next + BLOCK));
  }

  /** The same turn when the trim is clipped: the block was the last one the stream supports, and
      the buffer goes on as if the missing samples had been there. */
  lemma AfterClip(rate: nat, ch: nat, stream: seq<Sample>, next: nat, start: nat, pending: seq<Sample>,
                  output: seq<Sample>, block: seq<Sample>, rest: seq<Sample>, start': nat)
    requires Holds(rate, ch, stream, next, start, pending, output)
    requires ReadsBlock(rate, ch, pending, start, next, next + BLOCK, block)
    requires TrimPrefix(pending, rate, next + BLOCK, start, ch) == (rest, start')
    requires start' * ch > |stream|
    ensures pending != [] && rest == [] && next + BLOCK == OutFrames(rate, ch, |stream|)
    ensures Holds(rate, ch, stream + Padding(rate, ch, |stream|), next + BLOCK, start', rest, output + block)
  {
    hide Resampled, ReadsBlock, TrimPrefix;
    NextAligned(next);
    BlockThenTrim(rate, ch, stream, next, start, pending, output, block, rest, start');
    ClipIsLast(rate, ch, stream, next + BLOCK, start');
    ResampledPrefix(rate, ch, stream, Padding(rate, ch, |stream|), next + BLOCK);
  }

  lemma ClipIsLast(rate: nat, ch: nat, stream: seq<Sample>, next: nat, keep: nat)
    requires rate > 0 && ch > 0 && !PassesThrough(rate, ch) && next % BLOCK == 0 && next > 0
    requires keep == KeepFrom(rate, next) && keep * ch > |stream|
    requires CanResample(rate, ch, stream, next)
    ensures next == OutFrames(rate, ch, |stream|)
    ensures |stream + Padding(rate, ch, |stream|)| == keep * ch
  {
    DivLeast(|stream|, ch, keep);
    BlocksAre(rate, |stream| / ch, next, next);
  }

  lemma RoomShrinks(rate: nat, ch: nat, len: nat, next: nat, start: nat, keep: nat)
    requires rate > 0 && ch > 0 && start * ch <= len && keep * ch <= len && start <= Whole(rate, next)
    requires Supported(rate, len / ch, next + BLOCK - 1)
    ensures 0 <= OUT_RATE * (start + (len - start * ch) / ch) - next * rate
    ensures OUT_RATE * (keep + (len - keep * ch) / ch) - (next + BLOCK) * rate
         < OUT_RATE * (start + (len - start * ch) / ch) - next * rate
  {
    DropFrames(len, ch, start);
    DropFrames(len, ch, keep);
    assert (next + BLOCK) * rate == next * rate + BLOCK * rate;
    WholeMonotone(rate, next, next + BLOCK - 1);
  }

  /** The last turn: a block that stops short at output frame `reached`. */
  lemma AfterLast(rate: nat, ch: nat, stream: seq<Sample>, next: nat, start: nat,
                  pending: seq<Sample>, output: seq<Sample>, reached: nat)
    requires Holds(rate, ch, stream, next, start, pending, output)
    requires next <= reached < next + BLOCK && !RelSupported(rate, ch, pending, start, reached)
    ensures next == OutFrames(rate, ch, |stream|)
    ensures Padding(rate, ch, |stream|) == []
    ensures |pending| / ch <= rate / 50 + 3 && |output| == 2 * next
  {
    WholeMonotone(rate, next, reached);
    RelativeIsAbsolute(rate, ch, stream, start, reached);
    BlocksAre(rate, |stream| / ch, next, reached);
    RetainedFrames(rate, |stream| / ch, next, reached);
  }

  /** `out` is the start of the 48 kHz stereo form of `stream`. */
  ghost predicate IsOutput(rate: nat, ch: nat, stream: seq<Sample>, out: seq<Sample>) {
    if PassesThrough(rate, ch) then out <= stream
    else |out| % 2 == 0 && CanResample(rate, ch, stream, |out| / 2) && out == Resampled(rate, ch, stream, |out| / 2)
  }

  /* ---- What the output is, in terms of positions alone ---- */

  /** Both neighbours of position k * rate / 48000 are in a stream of `len` samples. */
  predicate HasNeighbours(rate: nat, ch: nat, len: nat, k: nat) {
    (k * rate / 48000 + 2) * ch <= len
  }

  /** Sample j of the output, of the left or the right side, lies linearly between its neighbours. */
  ghost predicate BetweenNeighbours(rate: nat, ch: nat, stream: seq<Sample>, out: seq<Sample>, j: nat)
    requires ch > 0 && j < |out|
  {
    && HasNeighbours(rate, ch, |stream|, j / 2)
    && var f, part := j / 2 * rate / 48000, j / 2 * rate % 48000;
       var left := f * ch + if ch >= 2 then j % 2 else 0;
       IndexFits(f, ch, left, |stream|);
       Nearest(out[j], stream[left], stream[left + ch], part)
  }

  lemma IndexFits(f: nat, ch: nat, left: nat, len: nat)
    requires ch > 0 && (f + 2) * ch <= len && left <= f * ch + (if ch >= 2 then 1 else 0)
    ensures left + ch < len
  {
    assert (f + 2) * ch == f * ch + 2 * ch;
  }

  /** The output interpolates the stream; at 48 kHz stereo that is the stream itself. */
  ghost predicate Interpolates(rate: nat, ch: nat, stream: seq<Sample>, out: seq<Sample>)
    requires ch > 0
  {
    if rate == 48000 && ch == 2 then out <= stream
    else |out| % 2 == 0 && forall j :: 0 <= j < |out| ==> BetweenNeighbours(rate, ch, stream, out, j)
  }

  /** n frames are whole blocks, and the next block is not complete. */
  predicate Complete(rate: nat, ch: nat, len: nat, n: nat) {
    && n % 960 == 0
    && if rate == 48000 && ch == 2 then 2 * n <= len < 2 * n + 1920
       else (n > 0 ==> HasNeighbours(rate, ch, len, n - 1)) && !HasNeighbours(rate, ch, len, n + 959)
  }

  lemma SupportedHasNeighbours(rate: nat, ch: nat, len: nat, k: nat)
    requires ch > 0
    ensures Supported(rate, len / ch, k) <==> HasNeighbours(rate, ch, len, k)
  {
    DivLeast(len, ch, Whole(rate, k) + 2);
  }

  lemma OutSampleIs(rate: nat, ch: nat, stream: seq<Sample>, out: seq<Sample>, j: nat)
    requires ch > 0 && j < |out| && Supported(rate, |stream| / ch, j / 2)
    ensures out[j] == OutSample(rate, ch, stream, j / 2, j % 2) <==> BetweenNeighbours(rate, ch, stream, out, j)
  {
    SupportedHasNeighbours(rate, ch, |stream|, j / 2);
    var f := Whole(rate, j / 2);
    var left := f * ch + Column(ch, j % 2);
    IndexFits(f, ch, left, |stream|);
    assert (f + 1) * ch == f * ch + ch;
    LerpIsNearestIff(out[j], stream[left], stream[left + ch], Part(rate, j / 2));
    hide Lerp, Nearest;
  }

  /** The output is that of the whole-stream resampler exactly if it interpolates the stream. */
  lemma OutputInterpolatesIff(rate: nat, ch: nat, stream: seq<Sample>, out: seq<Sample>)
    requires ch > 0
    ensures IsOutput(rate, ch, stream, out) <==> Interpolates(rate, ch, stream, out)
  {
    if !PassesThrough(rate, ch) && |out| % 2 == 0 {
      var n := |out| / 2;
      hide OutSample, BetweenNeighbours;
      if Interpolates(rate, ch, stream, out) {
        CanResampleOut(rate, ch, stream, out);
      }
      if CanResample(rate, ch, stream, n) {
        forall j | 0 <= j < |out|
          ensures Supported(rate, |stream| / ch, j / 2)
          ensures out[j] == OutSample(rate, ch, stream, j / 2, j % 2) <==> BetweenNeighbours(rate, ch, stream, out, j) {
          WholeMonotone(rate, j / 2, n - 1);
          OutSampleIs(rate, ch, stream, out, j);
        }
        assert Resampled(rate, ch, stream, n) == out <==>
               forall j :: 0 <= j < |out| ==> out[j] == Resampled(rate, ch, stream, n)[j];
      }
    }
  }

  lemma CanResampleOut(rate: nat, ch: nat, stream: seq<Sample>, out: seq<Sample>)
    requires ch > 0 && !PassesThrough(rate, ch) && Interpolates(rate, ch, stream, out)
    ensures CanResample(rate, ch, stream, |out| / 2)
  {
    if out != [] {
      var j := |out| - 1;
      assert BetweenNeighbours(rate, ch, stream, out, j);
      SupportedHasNeighbours(rate, ch, |stream|, j / 2);
    }
  }

  /** A pop stops exactly where the next block is not complete. */
  lemma OutFramesComplete(rate: nat, ch: nat, len: nat)
    requires rate > 0 && ch > 0
    ensures Complete(rate, ch, len, OutFrames(rate, ch, len))
  {
    if PassesThrough(rate, ch) {
      WholeBlocks(len / 1920, len);
    } else {
      hide HasNeighbours, Supported, Blocks;
      var b := Blocks(rate, len / ch);
      WholeBlocks(b, 1920 * b);
      BlocksComplete(rate, ch, len, b);
    }
  }

  lemma WholeBlocks(b: nat, len: nat)
    requires b == len / 1920
    ensures 960 * b % 960 == 0 && 2 * (960 * b) <= len < 2 * (960 * b) + 1920
  {
  }

  lemma BlocksComplete(rate: nat, ch: nat, len: nat, b: nat)
    requires rate > 0 && ch > 0 && b == Blocks(rate, len / ch)
    ensures !HasNeighbours(rate, ch, len, 960 * b + 959) && (b > 0 ==> HasNeighbours(rate, ch, len, 960 * b - 1))
  {
    hide HasNeighbours, Supported, Blocks;
    BlockCompleteIff(rate, len / ch, b);
    SupportedHasNeighbours(rate, ch, len, 960 * b + 959);
    if b > 0 {
      BlockCompleteIff(rate, len / ch, b - 1);
      SupportedHasNeighbours(rate, ch, len, 960 * b - 1);
    }
  }

  /** `Opus48kPcmBuffer`. The ghost fields record the run: `stream` is everything pushed, with the
      shortfall of a clipped trim put in where it happened, and `output` everything popped. */
  class Opus48kPcmBuffer {
    var state: PipelineState
    var pending: seq<Sample>
    const rate: nat
    const ch: nat
    ghost var stream: seq<Sample>
    ghost var output: seq<Sample>

    ghost predicate Valid()
      reads this
    {
      && rate > 0 && ch > 0
      && match state
         case Stereo48kPassthrough =>
           PassesThrough(rate, ch) && |output| % (2 * BLOCK) == 0 && stream == output + pending
         case Resample(r, c, next, start) =>
           r == rate && c == ch && Holds(rate, ch, stream, next, start, pending, output)
    }

    lemma OutputIsResampled()
      requires Valid()
      ensures IsOutput(rate, ch, stream, output)
    {
    }

    constructor (inRate: nat, inChannels: nat)
      ensures Valid() && stream == [] && output == []
      ensures rate == (if inRate < 1 then 1 else inRate) && ch == (if inChannels < 1 then 1 else inChannels)
    {
      var c := if inChannels < 1 then 1 else inChannels;
      var r := if inRate < 1 then 1 else inRate;
      rate, ch := r, c;
      state := if r == 48000 && c == 2 then Stereo48kPassthrough else Resample(r, c, 0, 0);
      pending, stream, output := [], [], [];
    }

    method PushInterleaved(data: seq<Sample>)
      requires Valid()
      modifies this
      ensures Valid() && stream == old(stream) + data && output == old(output)
    {
      if state.Resample? {
        ResampledPrefix(rate, ch, stream, data, state.nextOutFrame);
        assert (stream + data)[state.bufferStartFrame * ch..] == pending + data;
      }
      pending := pending + data;
      stream := stream + data;
      assert state.Stereo48kPassthrough? ==> stream == output + pending;
    }

    method Interpolate(f: nat, k: nat) returns (l: Sample, r: Sample)
      requires Valid() && state.Resample? && f == SatSub(Whole(rate, k), state.bufferStartFrame)
      requires RelSupported(rate, ch, pending, state.bufferStartFrame, k)
      ensures l == RelSample(rate, ch, pending, state.bufferStartFrame, k, 0)
      ensures r == RelSample(rate, ch, pending, state.bufferStartFrame, k, 1)
    {
      InFrame(ch, |pending|, f, Column(ch, 1));
      InFrame(ch, |pending|, f + 1, Column(ch, 1));
      var base0, base1 := f * ch, (f + 1) * ch;
      l := Lerp(pending[base0], pending[base1], Part(rate, k));
      r := if state.inChannels >= 2 then Lerp(pending[base0 + 1], pending[base1 + 1], Part(rate, k)) else l;
    }

    /** One pass of the inner loop: 960 frames from `next`, or those before the first one missing. */
    method FillBlock(next: nat) returns (block: seq<Sample>)
      requires Valid() && state.Resample?
      ensures |block| <= 2 * BLOCK && |block| % 2 == 0
      ensures ReadsBlock(rate, ch, pending, state.bufferStartFrame, next, next + |block| / 2, block)
      ensures |block| < 2 * BLOCK ==> !RelSupported(rate, ch, pending, state.bufferStartFrame, next + |block| / 2)
      ensures forall j :: 0 <= j < |block| ==>
        NearestInBuffer(rate, ch, pending, state.bufferStartFrame, next + j / 2, j % 2, block[j])
    {
      hide RelSample, Holds, ReadsBlock, NearestInBuffer;
      block := [];
      ReadsNothing(rate, ch, pending, state.bufferStartFrame, next);
      for i := 0 to BLOCK
        invariant |block| == 2 * i
        invariant ReadsBlock(rate, ch, pending, state.bufferStartFrame, next, next + i, block)
        invariant forall j :: 0 <= j < |block| ==>
          NearestInBuffer(rate, ch, pending, state.bufferStartFrame, next + j / 2, j % 2, block[j])
      {
        var k := next + i;
        var f := SatSub(Whole(rate, k), state.bufferStartFrame);
        if f + 1 >= |pending| / ch {
          return;
        }
        var l, r := Interpolate(f, k);
        ReadsMore(rate, ch, pending, state.bufferStartFrame, next, k, block);
        RelSampleNearest(rate, ch, pending, state.bufferStartFrame, k, 0);
        RelSampleNearest(rate, ch, pending, state.bufferStartFrame, k, 1);
        block := block + [l, r];
      }
    }

    /** Drops the frames no longer needed and moves the start frame by as many, clipped or not. */
    method TrimResamplePrefix(next: nat)
      requires state.Resample? && ch > 0
      modifies this`pending, this`state
      ensures state.Resample? && state == old(state).(bufferStartFrame := state.bufferStartFrame)
      ensures (pending, state.bufferStartFrame) == TrimPrefix(old(pending), rate, next, old(state).bufferStartFrame, ch)
    {
      if pending == [] {
        return;
      }
      var keepFrom := KeepFrom(rate, next);
      if keepFrom <= state.bufferStartFrame {
        return;
      }
      var dropFrames := keepFrom - state.bufferStartFrame;
      var dropSamples := if dropFrames * ch <= |pending| then dropFrames * ch else |pending|;
      if dropSamples > 0 {
        pending := pending[dropSamples..];
        state := state.(bufferStartFrame := state.bufferStartFrame + dropFrames);
      }
    }

    /** Appends every complete block to `out`. All in all, that is as much of the resampled stream as
        the stream supports. */
    method PopOpusFrames(out: seq<Sample>) returns (result: seq<Sample>)
      requires Valid()
      modifies this
      ensures Valid()
      ensures old(output) <= output && result == out + output[|old(output)|..]
      ensures Interpolates(rate, ch, stream, output) && Complete(rate, ch, |old(stream)|, |output| / 2)
      ensures |output| == 2 * OutFrames(rate, ch, |old(stream)|)
      ensures stream == old(stream) + Padding(rate, ch, |old(stream)|)
      ensures if PassesThrough(rate, ch) then |pending| < 2 * BLOCK else |pending| / ch <= rate / 50 + 3
    {
      hide Interpolates, Complete, IsOutput, OutFrames;
      if state.Stereo48kPassthrough? {
        result := PopUnchanged(out);
      } else {
        result := PopResampled(out);
      }
      OutputIsResampled();
      OutputInterpolatesIff(rate, ch, stream, output);
      OutFramesComplete(rate, ch, |old(stream)|);
    }

    method PopUnchanged(out: seq<Sample>) returns (result: seq<Sample>)
      requires Valid() && PassesThrough(rate, ch)
      modifies this
      ensures Valid() && stream == old(stream)
      ensures old(output) <= output && result == out + output[|old(output)|..]
      ensures |output| == 2 * OutFrames(rate, ch, |stream|) && |pending| < 2 * BLOCK
    {
      result := out;
      while |pending| >= 2 * BLOCK
        invariant Valid() && stream == old(stream)
        invariant old(output) <= output && result == out + output[|old(output)|..]
        decreases |pending|
      {
        result := result + pending[..2 * BLOCK];
        output := output + pending[..2 * BLOCK];
        pending := pending[2 * BLOCK..];
      }
    }

    method PopResampled(out: seq<Sample>) returns (result: seq<Sample>)
      requires Valid() && !PassesThrough(rate, ch)
      modifies this
      ensures Valid()
      ensures old(output) <= output && result == out + output[|old(output)|..]
      ensures |output| == 2 * OutFrames(rate, ch, |old(stream)|)
      ensures stream == old(stream) + Padding(rate, ch, |old(stream)|)
      ensures |pending| / ch <= rate / 50 + 3
    {
      hide Resampled, ReadsBlock, TrimPrefix, Holds, Room;
      result := out;
      ghost var clipped := false;
      while true
        invariant Valid() && state.Resample?
        invariant old(output) <= output && result == out + output[|old(output)|..]
        invariant clipped ==> pending == [] && state.nextOutFrame == OutFrames(rate, ch, |old(stream)|)
        invariant stream == old(stream) + if clipped then Padding(rate, ch, |old(stream)|) else []
        decreases pending != [], Room(rate, ch, state.nextOutFrame, state.bufferStartFrame, pending)
      {
        ghost var next, start := state.nextOutFrame, state.bufferStartFrame;
        var block := FillBlock(state.nextOutFrame);
        if |block| != 2 * BLOCK {
          AfterLast(rate, ch, stream, next, start, pending, output, next + |block| / 2);
          return;
        }
        ghost var (rest, start') := TrimPrefix(pending, rate, next + BLOCK, start, ch);
        if start' * ch > |stream| {
          AfterClip(rate, ch, stream, next, start, pending, output, block, rest, start');
          stream := stream + Padding(rate, ch, |stream|);
          clipped := true;
        } else {
          AfterBlock(rate, ch, stream, next, start, pending, output, block, rest, start');
        }
        result := result + block;
        output := output + block;
        state := state.(nextOutFrame := state.nextOutFrame + BLOCK);
        TrimResamplePrefix(state.nextOutFrame);
      }
    }
  }

  /* ---- Whole runs ---- */

  /** One use of the buffer by the capture loop. */
  datatype Op = Push(data: seq<Sample>) | Pop

  function InputOf(ops: seq<Op>): seq<Sample> {
    if ops == [] then []
    else InputOf(ops[..|ops| - 1]) + match ops[|ops| - 1] case Push(data) => data case Pop => []
  }

  /** The stream a run resamples: its input, with a shortfall put in wherever a trim was clipped. */
  function StreamOf(rate: nat, ch: nat, ops: seq<Op>): seq<Sample>
    requires rate > 0 && ch > 0
  {
    if ops == [] then []
    else
      var stream := StreamOf(rate, ch, ops[..|ops| - 1]);
      stream + match ops[|ops| - 1] case Push(data) => data case Pop => Padding(rate, ch, |stream|)
  }

  function FramesOf(rate: nat, ch: nat, ops: seq<Op>): nat
    requires rate > 0 && ch > 0
  {
    if ops == [] then 0
    else if ops[|ops| - 1].Push? then FramesOf(rate, ch, ops[..|ops| - 1])
    else OutFrames(rate, ch, |StreamOf(rate, ch, ops[..|ops| - 1])|)
  }

  lemma RunStart(rate: nat, ch: nat)
    requires rate > 0 && ch > 0
    ensures StreamOf(rate, ch, []) == [] && FramesOf(rate, ch, []) == 0
  {
  }

  lemma RunStep(rate: nat, ch: nat, ops: seq<Op>, i: nat)
    requires rate > 0 && ch > 0 && i < |ops|
    ensures var stream := StreamOf(rate, ch, ops[..i]);
            && StreamOf(rate, ch, ops[..i + 1]) ==
                 stream + (match ops[i] case Push(data) => data case Pop => Padding(rate, ch, |stream|))
            && FramesOf(rate, ch, ops[..i + 1]) ==
                 (if ops[i].Push? then FramesOf(rate, ch, ops[..i]) else OutFrames(rate, ch, |stream|))
  {
    assert ops[..i + 1][..i] == ops[..i];
  }

  /** Runs a buffer from its construction; a run pops what its operations determine. */
  method RunPipeline(rate: nat, ch: nat, ops: seq<Op>) returns (out: seq<Sample>)
    requires rate > 0 && ch > 0
    ensures out == OutputOf(rate, ch, ops)
    ensures Interpolates(rate, ch, StreamOf(rate, ch, ops), out)
  {
    hide StreamOf, FramesOf, IsOutput;
    var buffer := new Opus48kPcmBuffer(rate, ch);
    out := [];
    RunStart(rate, ch);
    assert ops[..0] == [];
    for i := 0 to |ops|
      invariant fresh(buffer) && buffer.Valid() && buffer.rate == rate && buffer.ch == ch
      invariant out == buffer.output && buffer.stream == StreamOf(rate, ch, ops[..i])
      invariant |out| == 2 * FramesOf(rate, ch, ops[..i])
    {
      RunStep(rate, ch, ops, i);
      match ops[i] {
        case Push(data) => buffer.PushInterleaved(data);
        case Pop => out := buffer.PopOpusFrames(out);
      }
    }
    assert ops[..|ops|] == ops;
    buffer.OutputIsResampled();
    OutputUnique(rate, ch, StreamOf(rate, ch, ops), out, OutputOf(rate, ch, ops));
    OutputInterpolatesIff(rate, ch, StreamOf(rate, ch, ops), out);
  }

  /** What a run pops: the resampled form of its stream. */
  ghost function OutputOf(rate: nat, ch: nat, ops: seq<Op>): (out: seq<Sample>)
    requires rate > 0 && ch > 0
    ensures |out| == 2 * FramesOf(rate, ch, ops)
    ensures IsOutput(rate, ch, StreamOf(rate, ch, ops), out)
  {
    RunSupported(rate, ch, ops);
    var stream, n := StreamOf(rate, ch, ops), FramesOf(rate, ch, ops);
    assert 2 * n / 2 == n;
    if PassesThrough(rate, ch) then stream[..2 * n] else Resampled(rate, ch, stream, n)
  }

  lemma {:induction false} RunSupported(rate: nat, ch: nat, ops: seq<Op>)
    requires rate > 0 && ch > 0
    ensures var stream, n := StreamOf(rate, ch, ops), FramesOf(rate, ch, ops);
            if PassesThrough(rate, ch) then 2 * n <= |stream| else CanResample(rate, ch, stream, n)
  {
    if ops != [] {
      var before := ops[..|ops| - 1];
      RunSupported(rate, ch, before);
      var stream := StreamOf(rate, ch, before);
      if !PassesThrough(rate, ch) {
        if ops[|ops| - 1].Push? {
          ResampledPrefix(rate, ch, stream, ops[|ops| - 1].data, FramesOf(rate, ch, before));
        } else {
          var n := OutFrames(rate, ch, |stream|);
          if n > 0 { SupportedIff(rate, |stream| / ch, n - 1); }
          ResampledPrefix(rate, ch, stream, Padding(rate, ch, |stream|), n);
        }
      }
    }
  }

  lemma OutputUnique(rate: nat, ch: nat, stream: seq<Sample>, a: seq<Sample>, b: seq<Sample>)
    requires IsOutput(rate, ch, stream, a) && IsOutput(rate, ch, stream, b) && |a| == |b|
    ensures a == b
  {
    if PassesThrough(rate, ch) {
      assert a == stream[..|a|] && b == stream[..|b|];
    }
  }

  /** Up to the safe rate, every run resamples exactly its input. */
  lemma {:induction false} SafeRunsResampleInput(rate: nat, ch: nat, ops: seq<Op>)
    requires 0 < rate <= SAFE_RATE && ch > 0
    ensures StreamOf(rate, ch, ops) == InputOf(ops)
  {
    if ops != [] {
      SafeRunsResampleInput(rate, ch, ops[..|ops| - 1]);
      SafeRateNeverClips(rate, ch, |StreamOf(rate, ch, ops[..|ops| - 1])|);
    }
  }

  /** The pops of a run depend on its input alone, not on how the input was cut into pushes or on
      when the earlier pops came. */
  lemma ChunkingIrrelevant(rate: nat, ch: nat, ops: seq<Op>, ops': seq<Op>)
    requires 0 < rate <= SAFE_RATE && ch > 0 && InputOf(ops) == InputOf(ops')
    ensures OutputOf(rate, ch, ops + [Pop]) == OutputOf(rate, ch, ops' + [Pop])
  {
    forall o | o in {ops, ops'}
      ensures StreamOf(rate, ch, o + [Pop]) == InputOf(ops)
      ensures |OutputOf(rate, ch, o + [Pop])| == 2 * OutFrames(rate, ch, |InputOf(ops)|)
    {
      assert (o + [Pop])[..|o|] == o;
      SafeRunsResampleInput(rate, ch, o);
      SafeRunsResampleInput(rate, ch, o + [Pop]);
    }
    OutputUnique(rate, ch, InputOf(ops), OutputOf(rate, ch, ops + [Pop]), OutputOf(rate, ch, ops' + [Pop]));
  }

  /* ---- Above the safe rate ---- */

  /** Silence up to the point where the trim is clipped, then one sample that is not silent. */
  function LosingRun(rate: nat, ch: nat): seq<Op>
    requires rate > SAFE_RATE && ch > 0
  {
    [Push(Silence(ClippingFrames(rate) * ch)), Pop, Push(Tail(rate, ch)), Pop]
  }

  function Silence(n: nat): seq<Sample> {
    seq(n, _ => 0)
  }

  function Tail(rate: nat, ch: nat): seq<Sample>
    requires rate > 0 && ch > 0
  {
    seq(2 * rate * ch, j => if j == ch then 1 else 0)
  }

  lemma LosingStreams(rate: nat, ch: nat)
    requires rate > SAFE_RATE && ch > 0
    ensures InputOf(LosingRun(rate, ch)) == Silence(ClippingFrames(rate) * ch) + Tail(rate, ch)
    ensures var stream := Silence((rate - 1) * ch) + Tail(rate, ch);
            && StreamOf(rate, ch, LosingRun(rate, ch)[..3]) == stream
            && stream <= StreamOf(rate, ch, LosingRun(rate, ch))
            && FramesOf(rate, ch, LosingRun(rate, ch)) == OutFrames(rate, ch, |stream|)
  {
    var run := LosingRun(rate, ch);
    var first := Silence(ClippingFrames(rate) * ch);
    HighRateClips(rate, ch);
    assert run[..3][..2] == [run[0], run[1]] && run[..2][..1] == [run[0]] && run[..1][..0] == [];
    assert run[..2] == [run[0], run[1]] && run[..1] == [run[0]];
    assert StreamOf(rate, ch, run[..1]) == first && InputOf(run[..1]) == first;
    SplitDrop(ClippingFrames(rate), rate - 1, ch);
    assert first + Padding(rate, ch, |first|) == Silence((rate - 1) * ch);
    assert StreamOf(rate, ch, run[..2]) == Silence((rate - 1) * ch) && InputOf(run[..2]) == first;
    assert InputOf(run[..3]) == first + Tail(rate, ch);
  }

  lemma SampleAtRate(rate: nat, ch: nat, stream: seq<Sample>)
    requires ch > 0 && Supported(rate, |stream| / ch, 48000)
    ensures rate * ch < |stream| && OutSample(rate, ch, stream, 48000, 0) == stream[rate * ch]
  {
    assert Whole(rate, 48000) == rate && Part(rate, 48000) == 0;
    InFrame(ch, |stream|, rate, 0);
    InFrame(ch, |stream|, rate + 1, 0);
    LerpBetween(stream[rate * ch], stream[(rate + 1) * ch], 0);
  }

  /** Frame `rate` of what the losing run resamples sounds; frame `rate` of its input is silent. */
  lemma LosingSamples(rate: nat, ch: nat)
    requires rate > SAFE_RATE && ch > 0
    ensures var sounding := Silence((rate - 1) * ch) + Tail(rate, ch);
            rate * ch < |sounding| && sounding[rate * ch] == 1
    ensures var silent := Silence(ClippingFrames(rate) * ch) + Tail(rate, ch);
            rate * ch < |silent| ==> silent[rate * ch] == 0
  {
    HighRateClips(rate, ch);
    var f := ClippingFrames(rate);
    SplitDrop(rate - 1, rate, ch);
    SplitDrop(f, rate, ch);
    MulOrder(1, rate - f, ch);
    assert 2 * rate * ch == 2 * (rate * ch);
    MulOrder(2, rate, ch);
  }

  /** Output frame 48000 of that run takes up the sound where its input is still silent. */
  lemma HighRateLosesFrames(rate: nat, ch: nat)
    requires rate > SAFE_RATE && ch > 0
    ensures var run := LosingRun(rate, ch);
            !Interpolates(rate, ch, InputOf(run), OutputOf(rate, ch, run))
  {
    hide InputOf, StreamOf, FramesOf, OutFrames, IsOutput, Interpolates, OutputOf, Supported;
    var run := LosingRun(rate, ch);
    var input, stream, played := InputOf(run), StreamOf(rate, ch, run), Silence((rate - 1) * ch) + Tail(rate, ch);
    var out := OutputOf(rate, ch, run);
    LosingStreams(rate, ch);
    LosingRunIsLong(rate, ch, |played|);
    LosingSamples(rate, ch);
    OutputAtRate(rate, ch, stream, out);
    OutputInterpolatesIff(rate, ch, input, out);
    if IsOutput(rate, ch, input, out) {
      OutputAtRate(rate, ch, input, out);
    }
  }

  lemma OutputAtRate(rate: nat, ch: nat, stream: seq<Sample>, out: seq<Sample>)
    requires rate > SAFE_RATE && ch > 0 && IsOutput(rate, ch, stream, out) && |out| > 96000
    ensures rate * ch < |stream| && out[96000] == stream[rate * ch]
  {
    WholeMonotone(rate, 48000, |out| / 2 - 1);
    SampleAtRate(rate, ch, stream);
  }

  /** In every run the output interpolates the input exactly up to 144 kHz. */
  lemma RunsFaithfulIff(rate: nat, ch: nat)
    requires rate > 0 && ch > 0
    ensures (forall ops :: Interpolates(rate, ch, InputOf(ops), OutputOf(rate, ch, ops))) <==> rate <= 144000
  {
    hide Interpolates, IsOutput;
    if rate <= SAFE_RATE {
      forall ops ensures Interpolates(rate, ch, InputOf(ops), OutputOf(rate, ch, ops)) {
        SafeRunsResampleInput(rate, ch, ops);
        OutputInterpolatesIff(rate, ch, InputOf(ops), OutputOf(rate, ch, ops));
      }
    } else {
      HighRateLosesFrames(rate, ch);
    }
  }

  lemma PopFrames(rate: nat, ch: nat, ops: seq<Op>)
    requires rate > 0 && ch > 0
    ensures FramesOf(rate, ch, ops + [Pop]) == OutFrames(rate, ch, |StreamOf(rate, ch, ops)|)
  {
    hide StreamOf, OutFrames;
    assert (ops + [Pop])[..|ops|] == ops;
  }

  /** And up to there a last pop leaves no complete block behind. */
  lemma SafeRunsComplete(rate: nat, ch: nat, ops: seq<Op>)
    requires 0 < rate <= 144000 && ch > 0
    ensures Complete(rate, ch, |InputOf(ops)|, |OutputOf(rate, ch, ops + [Pop])| / 2)
  {
    hide InputOf, OutFrames, Complete, StreamOf, FramesOf, IsOutput;
    PopFrames(rate, ch, ops);
    SafeRunsResampleInput(rate, ch, ops);
    OutFramesComplete(rate, ch, |InputOf(ops)|);
  }

  lemma LosingRunIsLong(rate: nat, ch: nat, len: nat)
    requires rate > SAFE_RATE && ch > 0 && len == (rate - 1) * ch + 2 * rate * ch
    ensures OutFrames(rate, ch, len) > 48000
    ensures Supported(rate, len / ch, 48000)
  {
    assert len == (3 * rate - 1) * ch;
    ExactFrames(3 * rate - 1, ch);
    SupportedIff(rate, len / ch, 48959);
    SupportedIff(rate, len / ch, 48000);
  }
}
