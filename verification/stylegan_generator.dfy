/**
 * The layer bookkeeping of the StyleGAN2 `Generator`: how many styled
 * convolutions, RGB layers, noise buffers and latent rows a generator of a
 * given output size has (`__init__`), and which latent row and noise entry
 * each layer reads when the image is synthesised (`forward`). The tensors
 * themselves are not modelled; a layer is described by its channel counts.
 */
module StyleGanGenerator {
  import opened Wrappers

  function Pow2(n: nat): (r: nat)
    ensures r >= 1
  {
    if n == 0 then 1 else 2 * Pow2(n - 1)
  }

  /** `n` is 1, 2, 4, 8, ... */
  predicate IsPow2(n: nat)
  {
    n == 1 || (n >= 2 && n % 2 == 0 && IsPow2(n / 2))
  }

  /**
   * `int(math.log(size, 2))`, computed exactly: the largest `r` with
   * `2^r <= n`.
   */
  function Log2(n: nat): (r: nat)
    requires n >= 1
    ensures Pow2(r) <= n < 2 * Pow2(r)
  {
    if n == 1 then 0 else 1 + Log2(n / 2)
  }

  /** On a power of two the logarithm is exact. */
  lemma {:induction false} Log2OfPow2(n: nat)
    requires n >= 1 && IsPow2(n)
    ensures Pow2(Log2(n)) == n
  {
    if n != 1 {
      Log2OfPow2(n / 2);
    }
  }

  /** `self.channels[res]`; `None` is the KeyError of a resolution the table lacks. */
  function Channels(res: int, mult: int): Option<int>
  {
    if res == 4 || res == 8 || res == 16 || res == 32 then Some(512)
    else if res == 64 then Some(256 * mult)
    else if res == 128 then Some(128 * mult)
    else if res == 256 then Some(64 * mult)
    else if res == 512 then Some(32 * mult)
    else if res == 1024 then Some(16 * mult)
    else None
  }

  /** The table covers the resolutions 2^2 .. 2^10 and nothing above. */
  lemma ChannelsCover(i: nat, mult: int)
    ensures 2 <= i <= 10 ==> Channels(Pow2(i), mult).Some?
    ensures i > 10 ==> Channels(Pow2(i), mult).None?
  {
    assert Pow2(2) == 4 && Pow2(3) == 8 && Pow2(4) == 16 && Pow2(5) == 32;
    assert Pow2(6) == 64 && Pow2(7) == 128 && Pow2(8) == 256;
    assert Pow2(9) == 512 && Pow2(10) == 1024;
    if i > 10 {
      Pow2Grows(10, i);
    }
  }

  lemma {:induction false} Pow2Grows(a: nat, b: nat)
    requires a < b
    ensures 2 * Pow2(a) <= Pow2(b)
  {
    if a + 1 < b {
      Pow2Grows(a, b - 1);
    }
  }

  /** The channel count at resolution `2^i`. */
  function ChannelAt(i: nat, mult: int): int
    requires 2 <= i <= 10
  {
    ChannelsCover(i, mult);
    Channels(Pow2(i), mult).value
  }

  /** `StyledConv(in_channel, out_channel, kernel_size, style_dim, upsample=...)`. */
  datatype StyledConvSpec = StyledConvSpec(inChannel: int, outChannel: int, kernelSize: int, upsample: bool)

  /** `ToRGB(in_channel, style_dim, upsample=...)`. */
  datatype ToRgbSpec = ToRgbSpec(inChannel: int, upsample: bool)

  /** `res = (layer_idx + 5) // 2`: noise buffer `layer_idx` is `2^res` square. */
  function NoiseSide(layerIdx: nat): nat
  {
    Pow2((layerIdx + 5) / 2)
  }

  /**
   * Noise buffer 0 (for `conv1`) is 4 x 4; the buffers of the two
   * convolutions of stage `k` (layers `2k - 1` and `2k`) share the side
   * `2^(k + 2)`, the resolution that stage produces.
   */
  lemma NoiseSidesPerStage(k: nat)
    ensures NoiseSide(0) == 4
    ensures k >= 1 ==> NoiseSide(2 * k - 1) == NoiseSide(2 * k) == Pow2(k + 2)
  {
    assert Pow2(2) == 4;
  }

  /** `s[start::2]`. */
  function Strided<T>(s: seq<T>, start: nat): (r: seq<T>)
    ensures |r| == StridedLen(|s|, start)
    ensures forall k :: 0 <= k < |r| ==> r[k] == s[start + 2 * k]
    decreases |s| - start
  {
    if start >= |s| then [] else [s[start]] + Strided(s, start + 2)
  }

  /** What one layer of `forward` reads: its latent row and, for a styled convolution, its noise entry. */
  datatype Use<N> =
    | StyledConvUse(layer: nat, latent: int, noise: N)  // layer 0 is `conv1`, layer t + 1 is `convs[t]`
    | ToRgbUse(rgb: nat, latent: int)                   // rgb 0 is `to_rgb1`, rgb k + 1 is `to_rgbs[k]`

  /**
   * The trace of `forward` with `n` zipped stages: `conv1` and `to_rgb1`,
   * then per stage `k` the two convolutions (layers `2k + 1`, `2k + 2`) and
   * `to_rgbs[k]`. Each styled convolution reads the latent row and the noise
   * entry of its own layer number; `to_rgbs[k]` reads the row after them.
   */
  ghost predicate StagedTrace<N>(uses: seq<Use<N>>, noise: seq<N>, n: nat)
  {
    && |noise| >= 2 * n + 1
    && |uses| == 3 * n + 2
    && uses[0] == StyledConvUse(0, 0, noise[0])
    && uses[1] == ToRgbUse(0, 1)
    && forall k :: 0 <= k < n ==>
         && uses[3 * k + 2] == StyledConvUse(2 * k + 1, 2 * k + 1, noise[2 * k + 1])
         && uses[3 * k + 3] == StyledConvUse(2 * k + 2, 2 * k + 2, noise[2 * k + 2])
         && uses[3 * k + 4] == ToRgbUse(k + 1, 2 * k + 3)
  }

  /**
   * The number of stages `zip(convs[::2], convs[1::2], noise[1::2],
   * noise[2::2], to_rgbs)` yields: each stage has its two noise entries,
   * and with `2s` convolutions, `s` RGB layers and at least `2s + 1` noise
   * entries it yields all `s` stages.
   */
  lemma ZipLength(numConvs: nat, numRgbs: nat, numNoise: nat, n: int)
    requires numNoise >= 1
    requires n == Min(Min(Min(StridedLen(numConvs, 0), StridedLen(numConvs, 1)),
                          Min(StridedLen(numNoise, 1), StridedLen(numNoise, 2))), numRgbs)
    ensures 0 <= n <= numRgbs && 2 * n + 1 <= numNoise
    ensures numConvs == 2 * numRgbs && numNoise >= numConvs + 1 ==> n == numRgbs
  {
  }

  /** `len(s[start::2])` for a list of length `len`. */
  function StridedLen(len: nat, start: nat): nat
  {
    if start < len then (len - start + 1) / 2 else 0
  }

  /** One more zipped stage. */
  lemma StagedTraceExtend<N>(uses: seq<Use<N>>, noise: seq<N>, k: nat)
    requires StagedTrace(uses, noise, k) && |noise| >= 2 * k + 3
    ensures StagedTrace(uses + [StyledConvUse(2 * k + 1, 2 * k + 1, noise[2 * k + 1]),
                                StyledConvUse(2 * k + 2, 2 * k + 2, noise[2 * k + 2]),
                                ToRgbUse(k + 1, 2 * k + 3)], noise, k + 1)
  {
  }

  /** The noise entries a trace consumes, in order. */
  function NoisesUsed<N>(uses: seq<Use<N>>): seq<N>
  {
    if uses == [] then []
    else
      var init := NoisesUsed(uses[..|uses| - 1]);
      match uses[|uses| - 1]
      case StyledConvUse(_, _, nz) => init + [nz]
      case ToRgbUse(_, _) => init
  }

  /** A staged trace consumes exactly the first `2n + 1` noise entries, each once, in order. */
  lemma {:induction false} StagedTraceNoise<N>(uses: seq<Use<N>>, noise: seq<N>, n: nat)
    requires StagedTrace(uses, noise, n)
    ensures NoisesUsed(uses) == noise[..2 * n + 1]
  {
    if n == 0 {
      assert uses[..1] == [uses[0]];
      assert NoisesUsed(uses[..1]) == [noise[0]];
      assert uses[..|uses|-1] == uses[..1];
    } else {
      var m := n - 1;
      var shorter := uses[..3 * m + 2];
      assert StagedTrace(shorter, noise, m);
      StagedTraceNoise(shorter, noise, m);
      var withFirst := uses[..3 * m + 3];
      var withSecond := uses[..3 * m + 4];
      assert withFirst[..|withFirst| - 1] == shorter;
      assert NoisesUsed(withFirst) == NoisesUsed(shorter) + [noise[2 * m + 1]];
      assert withSecond[..|withSecond| - 1] == withFirst;
      assert NoisesUsed(withSecond) == NoisesUsed(withFirst) + [noise[2 * m + 2]];
      assert uses[..|uses| - 1] == withSecond;
      assert NoisesUsed(uses) == NoisesUsed(withSecond);
      assert noise[..2 * n + 1] == noise[..2 * m + 1] + [noise[2 * m + 1], noise[2 * m + 2]];
    }
  }

  /** The integers `0 .. m - 1`. */
  function Below(m: int): (r: set<int>)
    ensures forall j :: j in r <==> 0 <= j < m
    decreases m
  {
    if m <= 0 then {} else Below(m - 1) + {m - 1}
  }

  /** The latent rows a trace reads. */
  function LatentsRead<N>(uses: seq<Use<N>>): set<int>
  {
    set t | 0 <= t < |uses| :: uses[t].latent
  }

  /**
   * A staged trace reads exactly the latent rows `0 .. 2n + 1`, and its
   * last layer reads row `2n + 1`.
   */
  lemma StagedTraceLatents<N>(uses: seq<Use<N>>, noise: seq<N>, n: nat)
    requires StagedTrace(uses, noise, n)
    ensures LatentsRead(uses) == Below(2 * n + 2)
    ensures uses[|uses| - 1].latent == 2 * n + 1
  {
    forall t | 0 <= t < |uses| ensures uses[t].latent in Below(2 * n + 2) {
      if t >= 2 {
        var k := (t - 2) / 3;
        assert t == 3 * k + 2 || t == 3 * k + 3 || t == 3 * k + 4;
      }
    }
    if n > 0 {
      assert uses[3 * (n - 1) + 4] == ToRgbUse(n, 2 * n + 1);
    }
    forall j | j in Below(2 * n + 2) ensures j in LatentsRead(uses) {
      var t := if j < 2 then j else if j % 2 == 0 then 3 * (j / 2 - 1) + 3 else 3 * ((j - 1) / 2 - 1) + 4;
      assert uses[t].latent == j;
    }
  }

  /** Which style each latent row comes from: `count` rows of style `style`. */
  function Repeat(style: nat, count: nat): (r: seq<nat>)
    ensures |r| == count && forall j :: 0 <= j < count ==> r[j] == style
  {
    seq(count, _ => style)
  }

  class Generator {
    const size: nat
    const channelMultiplier: int
    const conv1: StyledConvSpec
    const toRgb1: ToRgbSpec
    const logSize: nat
    const numLayers: nat
    /** The side of the square noise buffer `noise_{layer_idx}`, per layer. */
    var noises: seq<nat>
    var convs: seq<StyledConvSpec>
    var toRgbs: seq<ToRgbSpec>
    const nLatent: nat

    /**
     * The generator `__init__` builds: `num_layers = 2(L - 2) + 1` noise
     * buffers, two styled convolutions (the first upsampling) and one RGB
     * layer per stage `i = 3 .. L`, with the channel counts of the table,
     * and `n_latent = 2L - 2`, where `L = log2(size)`.
     */
    ghost predicate Valid()
      reads this
    {
      && 2 <= logSize <= 10 && Pow2(logSize) == size
      && numLayers == (logSize - 2) * 2 + 1
      && nLatent == logSize * 2 - 2
      && conv1 == StyledConvSpec(ChannelAt(2, channelMultiplier), ChannelAt(2, channelMultiplier), 3, false)
      && toRgb1 == ToRgbSpec(ChannelAt(2, channelMultiplier), false)
      && |noises| == numLayers
      && (forall idx :: 0 <= idx < numLayers ==> noises[idx] == NoiseSide(idx))
      && |convs| == 2 * (logSize - 2) && |toRgbs| == logSize - 2
      && forall k :: 0 <= k < logSize - 2 ==> StageBuilt(convs, toRgbs, k, channelMultiplier)
    }

    /** Stage `k` (resolution `2^(k + 3)`) holds the layers `__init__` appends for `i = k + 3`. */
    static ghost predicate StageBuilt(convs: seq<StyledConvSpec>, toRgbs: seq<ToRgbSpec>, k: nat, mult: int)
    {
      && 2 * k + 1 < |convs| && k < |toRgbs| && k + 3 <= 10
      && convs[2 * k] == StyledConvSpec(ChannelAt(k + 2, mult), ChannelAt(k + 3, mult), 3, true)
      && convs[2 * k + 1] == StyledConvSpec(ChannelAt(k + 3, mult), ChannelAt(k + 3, mult), 3, false)
      && toRgbs[k] == ToRgbSpec(ChannelAt(k + 3, mult), true)
    }

    /**
     * `Generator.__init__` for a power-of-two `size` the channel table
     * covers (4 to 1024). Only the integer configuration is built.
     */
    constructor (size: nat, channelMultiplier: int)
      requires 4 <= size <= 1024 && IsPow2(size)
      ensures Valid()
      ensures this.size == size && this.channelMultiplier == channelMultiplier
    {
      this.size := size;
      this.channelMultiplier := channelMultiplier;
      Log2OfPow2(size);
      var log := Log2(size);
      if log > 10 {
        Pow2Grows(10, log);
      }
      var c4 := Channels(4, channelMultiplier).value;
      assert c4 == ChannelAt(2, channelMultiplier) by { assert Pow2(2) == 4; }
      this.conv1 := StyledConvSpec(c4, c4, 3, false);
      this.toRgb1 := ToRgbSpec(c4, false);
      this.logSize := log;
      this.numLayers := (log - 2) * 2 + 1;
      this.nLatent := log * 2 - 2;
      new;
      noises := NoiseBuffers(numLayers);
      convs, toRgbs := StageLayers(logSize, channelMultiplier);
    }

    /** Lines 265-268: one noise buffer per layer, of side `2^((layer_idx + 5) // 2)`. */
    static method NoiseBuffers(numLayers: nat) returns (noises: seq<nat>)
      ensures |noises| == numLayers
      ensures forall idx :: 0 <= idx < numLayers ==> noises[idx] == NoiseSide(idx)
    {
      noises := [];
      var layerIdx := 0;
      while layerIdx < numLayers
        invariant 0 <= layerIdx <= numLayers && |noises| == layerIdx
        invariant forall idx :: 0 <= idx < layerIdx ==> noises[idx] == NoiseSide(idx)
      {
        noises := noises + [Pow2((layerIdx + 5) / 2)];
        layerIdx := layerIdx + 1;
      }
    }

    /**
     * Lines 270-281: for each resolution `2^i`, `i = 3 .. log_size`, an
     * upsampling convolution from the previous stage's channels, a
     * convolution keeping the channels, and an upsampling RGB layer.
     */
    static method StageLayers(logSize: nat, mult: int) returns (convs: seq<StyledConvSpec>, toRgbs: seq<ToRgbSpec>)
      requires 2 <= logSize <= 10
      ensures |convs| == 2 * (logSize - 2) && |toRgbs| == logSize - 2
      ensures forall k :: 0 <= k < logSize - 2 ==> StageBuilt(convs, toRgbs, k, mult)
    {
      convs := [];
      toRgbs := [];
      var inChannel := Channels(4, mult).value;
      assert inChannel == ChannelAt(2, mult) by { assert Pow2(2) == 4; }
      var i := 3;
      while i < logSize + 1
        invariant 3 <= i <= logSize + 1
        invariant |convs| == 2 * (i - 3) && |toRgbs| == i - 3
        invariant inChannel == ChannelAt(i - 1, mult)
        invariant forall k :: 0 <= k < i - 3 ==> StageBuilt(convs, toRgbs, k, mult)
      {
        ChannelsCover(i, mult);
        var outChannel := Channels(Pow2(i), mult).value;
        assert outChannel == ChannelAt(i, mult);
        ghost var convsBefore, rgbsBefore := convs, toRgbs;
        convs := convs + [StyledConvSpec(inChannel, outChannel, 3, true)];
        convs := convs + [StyledConvSpec(outChannel, outChannel, 3, false)];
        toRgbs := toRgbs + [ToRgbSpec(outChannel, true)];
        inChannel := outChannel;
        forall k | 0 <= k < i - 2 ensures StageBuilt(convs, toRgbs, k, mult) {
          if k < i - 3 {
            assert StageBuilt(convsBefore, rgbsBefore, k, mult);
            assert convs[2 * k] == convsBefore[2 * k] && convs[2 * k + 1] == convsBefore[2 * k + 1];
            assert toRgbs[k] == rgbsBefore[k];
          }
        }
        i := i + 1;
      }
    }

    /**
     * The layers of a built generator fit together: each styled convolution
     * takes the channels the one before it produces, each RGB layer takes
     * the channels of the stage it follows, and the last stage has the
     * channel count of the output resolution.
     */
    lemma ChannelsChain()
      requires Valid()
      ensures |convs| > 0 ==> convs[0].inChannel == conv1.outChannel
      ensures forall t :: 0 <= t < |convs| - 1 ==> convs[t + 1].inChannel == convs[t].outChannel
      ensures forall k :: 0 <= k < |toRgbs| ==> toRgbs[k].inChannel == convs[2 * k + 1].outChannel
      ensures |convs| > 0 ==> convs[|convs| - 1].outChannel == ChannelAt(logSize, channelMultiplier)
    {
      if |convs| > 0 {
        assert StageBuilt(convs, toRgbs, 0, channelMultiplier);
        assert StageBuilt(convs, toRgbs, logSize - 3, channelMultiplier);
      }
      ChannelsLinked();
      ChannelsToRgb();
    }

    lemma ChannelsLinked()
      requires Valid()
      ensures forall t :: 0 <= t < |convs| - 1 ==> convs[t + 1].inChannel == convs[t].outChannel
    {
      forall t | 0 <= t < |convs| - 1 ensures convs[t + 1].inChannel == convs[t].outChannel {
        if t % 2 == 0 {
          var k := t / 2;
          assert t == 2 * k;
          assert StageBuilt(convs, toRgbs, k, channelMultiplier);
        } else {
          var k := (t - 1) / 2;
          assert t == 2 * k + 1;
          assert StageBuilt(convs, toRgbs, k, channelMultiplier);
          assert StageBuilt(convs, toRgbs, k + 1, channelMultiplier);
        }
      }
    }

    lemma ChannelsToRgb()
      requires Valid()
      ensures forall k :: 0 <= k < |toRgbs| ==> toRgbs[k].inChannel == convs[2 * k + 1].outChannel
    {
      forall k | 0 <= k < |toRgbs| ensures toRgbs[k].inChannel == convs[2 * k + 1].outChannel {
        assert StageBuilt(convs, toRgbs, k, channelMultiplier);
      }
    }

    /** The first noise buffer is 4 x 4 and the last one has the output's side. */
    lemma NoiseBufferEnds()
      requires Valid()
      ensures noises[0] == 4
      ensures noises[numLayers - 1] == size
    {
      NoiseSidesPerStage(logSize - 2);
    }

    /**
     * Lines 301-313: the style each of the `n_latent` latent rows comes from.
     * One style fills every row. With two or more, rows `[0, inject_index)`
     * come from the first and the rest from the second; when no index is
     * given it is drawn from `[1, n_latent - 1]`, so both parts are
     * non-empty. `None`: no style at all, or an index outside `[0, n_latent]`
     * (a negative repeat count).
     */
    method MixStyles(numStyles: nat, injectIndex: Option<int>) returns (rows: Option<seq<nat>>)
      requires Valid()
      ensures rows.Some? ==> |rows.value| == nLatent
      ensures numStyles == 0 ==> rows.None?
      ensures numStyles == 1 ==> rows == Some(Repeat(0, nLatent))
      ensures numStyles >= 2 && injectIndex.Some? ==>
        if 0 <= injectIndex.value <= nLatent
        then rows == Some(Repeat(0, injectIndex.value) + Repeat(1, nLatent - injectIndex.value))
        else rows.None?
      ensures numStyles >= 2 && injectIndex.None? ==>
        exists j :: 1 <= j <= nLatent - 1 && rows == Some(Repeat(0, j) + Repeat(1, nLatent - j))
    {
      if numStyles == 0 {
        // `styles[0]` raises an IndexError.
        return None;
      }
      if numStyles < 2 {
        var inject := nLatent;
        rows := Some(Repeat(0, inject));
      } else {
        var inject: int;
        if injectIndex.None? {
          inject :| 1 <= inject <= nLatent - 1;
        } else {
          inject := injectIndex.value;
        }
        if inject < 0 || inject > nLatent {
          return None;
        }
        rows := Some(Repeat(0, inject) + Repeat(1, nLatent - inject));
      }
    }

    /**
     * `conv1` and `to_rgb1`, then `n` zipped stages, the latent row
     * advancing by 2 per stage.
     */
    static method RunStages<N>(noise: seq<N>, n: nat) returns (trace: seq<Use<N>>)
      requires |noise| >= 2 * n + 1
      ensures StagedTrace(trace, noise, n)
    {
      var noise1 := Strided(noise, 1);
      var noise2 := Strided(noise, 2);
      trace := [StyledConvUse(0, 0, noise[0]), ToRgbUse(0, 1)];
      var i := 1;
      var k := 0;
      while k < n
        invariant 0 <= k <= n && i == 2 * k + 1
        invariant StagedTrace(trace, noise, k)
      {
        assert noise1[k] == noise[2 * k + 1] && noise2[k] == noise[2 * k + 2];
        StagedTraceExtend(trace, noise, k);
        trace := trace + [StyledConvUse(2 * k + 1, i, noise1[k]), StyledConvUse(2 * k + 2, i + 1, noise2[k]), ToRgbUse(k + 1, i + 2)];
        i := i + 2;
        k := k + 1;
      }
    }

    /**
     * Lines 315-325 with the list `noise` (the registered buffers or one
     * entry per layer): `conv1` and `to_rgb1`, then the zip of `convs[::2]`,
     * `convs[1::2]`, `noise[1::2]`, `noise[2::2]` and `to_rgbs`, advancing
     * the latent row by 2 per stage. `None`: `noise[0]` does not exist.
     * With one noise entry per layer the zip runs all `L - 2` stages,
     * consumes every noise entry exactly once, in layer order, and reads
     * every latent row `0 .. n_latent - 1`; no layer reads a row past them.
     */
    method Forward<N>(noise: seq<N>) returns (uses: Option<seq<Use<N>>>)
      requires Valid()
      ensures uses.None? <==> noise == []
      ensures uses.Some? ==> LatentsRead(uses.value) <= Below(nLatent)
      ensures uses.Some? && |noise| >= numLayers ==>
        && StagedTrace(uses.value, noise, logSize - 2)
        && NoisesUsed(uses.value) == noise[..numLayers]
        && uses.value[|uses.value| - 1].latent == nLatent - 1
        && LatentsRead(uses.value) == Below(nLatent)
    {
      if noise == [] {
        return None;
      }
      // The zip stops at its shortest argument.
      var n := Min(Min(Min(StridedLen(|convs|, 0), StridedLen(|convs|, 1)),
                       Min(StridedLen(|noise|, 1), StridedLen(|noise|, 2))), |toRgbs|);
      ZipLength(|convs|, |toRgbs|, |noise|, n);
      var trace := RunStages(noise, n);
      StagedTraceLatents(trace, noise, n);
      assert 2 * n + 2 <= nLatent;
      if |noise| >= numLayers {
        assert n == logSize - 2 && 2 * n + 2 == nLatent;
        StagedTraceNoise(trace, noise, n);
      }
      uses := Some(trace);
    }
  }
}
