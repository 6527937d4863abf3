# LAS beam search and StyleGAN2 layer arithmetic in Dafny

This project models two pieces of a PyTorch-style model zoo and proves
properties of them.

**The Listen-Attend-Spell decoder's sequence bookkeeping**
(`Audio/Listen-Attend-Spell/src/models/decoder.py`):

- **Beam search of `recognize_beam`.** Each step does the following:
  - extends every active hypothesis by the `beam` best next ids;
  - after each parent, re-sorts the kept list by score and cuts it back to `beam`;
  - on the last allowed step, appends the end-of-sentence id to every entry;
  - moves the entries that end with it to the list of ended hypotheses.
- **The search's end:** it stops early once nothing is active, and returns the `nbest` best ended hypotheses.
- **Teacher-forcing targets of `forward`:** it strips the ignore id from each target, builds the decoder input `[sos] + y` and the output `y + [eos]`, and pads both batches.

**The StyleGAN2 generator's integer configuration**
(`Vision/gan/stylegan2/model.py`):

- the padding formulas of `Upsample` and `ModulatedConv2d`;
- the layers, noise buffers and latent rows that `Generator.__init__` creates;
- the latent rows and noise entries each layer reads in `Generator.forward`.

Layout:

- `wrappers.dfy` (module `Wrappers`): `Option`, for the error paths, and `Min`.
- `las_hypotheses.dfy` (module `LasHypotheses`):
  - hypotheses and candidates;
  - the stable descending sort that `sorted(..., reverse=True)` performs, and how it splits over a concatenation;
  - Python prefix slices.
- `las_beam_spec.dfy` (module `LasBeamSpec`):
  - the beam search as functions: one step, the whole search and the n-best selection;
  - the lemmas about them.
- `las_beam_search.dfy` (module `LasBeamSearch`):
  - the loops of `recognize_beam` as methods;
  - each method is proved to compute its function in `LasBeamSpec`.
- `las_targets.dfy` (module `LasTargets`): the target preparation of `forward`.
- `stylegan_padding.dfy` (module `StyleGanPadding`): the padding arithmetic.
- `stylegan_generator.dfy` (module `StyleGanGenerator`):
  - the `Generator` class, whose constructor builds the layer lists in loops;
  - the style mixing and the layer walk of `forward`.

**The scoring network is an oracle.** The decoder's scoring network is the embedding, LSTM stack, attention, MLP, softmax, log and `topk`. It is modelled as a function `TopK` that maps the ids a hypothesis emitted before its last one, together with that last id, to `beam` candidates. This works because a hypothesis's recurrent state and attention context are a deterministic function of its emitted ids. `BeamWide(topk, beam)` states that every call returns exactly `beam` candidates.

**Scores** are integers: an abstract ordered value standing for the float log-probabilities.

## Model

| member | source | states |
|---|---|---|
| LasHypotheses.Child | Audio/Listen-Attend-Spell/src/models/decoder.py:182-185 | A child's `yseq` is the parent's with exactly one id appended, so the parent's prefix is unchanged. Its last id is the candidate's id and its score is the parent's score plus the candidate's local score. |
| LasHypotheses.Children | Audio/Listen-Attend-Spell/src/models/decoder.py:177-187 | One child per candidate, in candidate order. |
| LasHypotheses.SortByScoreSpec | Audio/Listen-Attend-Spell/src/models/decoder.py:189-191 | The sort by score with `reverse=True` returns a permutation (same multiset and length) that is non-increasing in score. It is stable: for every score value, the entries with that score keep their original order. |
| LasHypotheses.SortAppend | Audio/Listen-Attend-Spell/src/models/decoder.py:189-191 | The stable sort of `a + b` is the merge of the sorted `a` and the sorted `b`, taking `a`'s entry first on equal scores. |
| LasHypotheses.TakeSortAppend | Audio/Listen-Attend-Spell/src/models/decoder.py:177-191 | Sorting and cutting to `n`, then adding more entries and sorting and cutting again, keeps the same `n` entries as one sort of everything cut to `n`. |
| LasHypotheses.TakeSortBest | Audio/Listen-Attend-Spell/src/models/decoder.py:189-191 | `sorted(...)[:n]` keeps entries of the list, and no entry it drops scores above an entry it keeps. |
| LasHypotheses.PyPrefix | Audio/Listen-Attend-Spell/src/models/decoder.py:220-221 | `s[:n]` is a prefix of `s`. Its length is `min(n, len)` for `n >= 0` and `max(len + n, 0)` for negative `n`. |
| LasBeamSpec.PruneStepSpec | Audio/Listen-Attend-Spell/src/models/decoder.py:177-191 | After one parent's children are appended, the list holds at most `2 * beam` entries. The kept list is sorted, has exactly `beam` entries, all taken from that list, and keeps the best ones: no entry dropped scores above an entry kept. Within each score value it keeps the earliest entries. |
| LasBeamSpec.KeepBestSpec | Audio/Listen-Attend-Spell/src/models/decoder.py:151-193 | The pass over the active hypotheses keeps at most `beam` entries. Once any parent has been processed it keeps exactly `beam`, sorted by score. Each kept entry was already kept or is a child of an active hypothesis. |
| LasBeamSpec.AllChildrenSpec | Audio/Listen-Attend-Spell/src/models/decoder.py:177-187 | An entry is among the children generated in a step if and only if it is some active hypothesis extended by one of that hypothesis's candidates. |
| LasBeamSpec.KeepBestAll | Audio/Listen-Attend-Spell/src/models/decoder.py:151-193 | Sorting and cutting after every parent, starting from a sorted cut of `x`, keeps the same list as one stable sort of `x` and all the step's children, cut to `beam`. |
| LasBeamSpec.KeepBestGlobal | Audio/Listen-Attend-Spell/src/models/decoder.py:151-193 | A step keeps the first `beam` entries of one stable sort of all children of all active hypotheses. So the kept entries are children, and no child left out scores above a kept one. |
| LasBeamSpec.KeepBestShaped | Audio/Listen-Attend-Spell/src/models/decoder.py:145-153 | If every active hypothesis holds `n` ids and starts with `sos`, every kept child holds `n + 1` ids and starts with `sos`. So at step `i`, `yseq[i]` is the last id. |
| LasBeamSpec.AppendEos | Audio/Listen-Attend-Spell/src/models/decoder.py:198 | Appending `eos` keeps the score and the earlier ids, and makes `eos` the last id. |
| LasBeamSpec.ForceEos | Audio/Listen-Attend-Spell/src/models/decoder.py:196-198 | On the last step every entry, in place and in order, gets `eos` appended. |
| LasBeamSpec.ForceEosEndsAll | Audio/Listen-Attend-Spell/src/models/decoder.py:196-214 | After the forced `eos`, every entry counts as ended and none stays active, so the loop breaks. |
| LasBeamSpec.SplitMembers | Audio/Listen-Attend-Spell/src/models/decoder.py:202-209 | The entries moved to `ended_hyps` are exactly the beam entries whose last id is `eos`, and the entries kept active are exactly the others (both directions for each list). |
| LasBeamSpec.PartitionSpec | Audio/Listen-Attend-Spell/src/models/decoder.py:202-209 | Every beam entry goes to exactly one of the two lists: the lengths and multisets add up to the beam's. |
| LasBeamSpec.SplitInOrder | Audio/Listen-Attend-Spell/src/models/decoder.py:202-209 | The split keeps beam order: splitting `a + b` gives the split of `a` followed by the split of `b`, for both lists. |
| LasBeamSpec.SplitOne | Audio/Listen-Attend-Spell/src/models/decoder.py:204-207 | A single entry goes to `ended_hyps` if its last id is `eos`, and to `remained_hyps` otherwise. |
| LasBeamSpec.DecodeCap | Audio/Listen-Attend-Spell/src/models/decoder.py:128-131 | With `decode_max_len` 0 every result holds at most `encoder length + 2` ids, and at least `min(nbest, beam)` results come back when the encoder output has a frame. Otherwise every result holds at most `decode_max_len + 2` ids. A negative `decode_max_len`, or 0 with an empty encoder output, returns nothing. |
| LasBeamSpec.SearchGrows | Audio/Listen-Attend-Spell/src/models/decoder.py:148-214 | `ended_hyps` only grows: the search's final ended list extends the one it started with. |
| LasBeamSpec.StepSplitShaped | Audio/Listen-Attend-Spell/src/models/decoder.py:150-209 | One step keeps the search's invariants: the hypotheses it ends are completed, and those left active hold `i + 2` ids starting with `sos`. |
| LasBeamSpec.SearchCompleted | Audio/Listen-Attend-Spell/src/models/decoder.py:150-214 | Every ended hypothesis starts with `sos`, ends with `eos` and holds between 2 and `maxlen + 2` ids. |
| LasBeamSpec.SearchYield | Audio/Listen-Attend-Spell/src/models/decoder.py:150-214 | A search with an active hypothesis and at least one step left ends at least `beam` more hypotheses. This follows from the forced `eos` on the last step. |
| LasBeamSpec.NBestSpec | Audio/Listen-Attend-Spell/src/models/decoder.py:220-221 | The n-best list is a prefix of the stably sorted ended list, so it is sorted and drawn from `ended_hyps`. Its length is `min(len(ended_hyps), nbest)`, with Python's slice rule for negative `nbest`. |
| LasBeamSpec.RecognizeBeamSpecProperties | Audio/Listen-Attend-Spell/src/models/decoder.py:115-222 | The result of the whole search is sorted by score and every entry is a completed hypothesis. It has at most `nbest` entries, and at least `min(nbest, beam)` when at least one step runs. |
| LasBeamSpec.Greedy | Audio/Listen-Attend-Spell/src/models/decoder.py:150-214 | Greedy decoding, the reference for beam width 1: at most one hypothesis ends, exactly one when a step runs, and it ends with `eos`. |
| LasBeamSpec.KeepBestOne | Audio/Listen-Attend-Spell/src/models/decoder.py:151-193 | With beam width 1 a step keeps exactly the child of the best candidate. |
| LasBeamSpec.BeamOneIsGreedy | Audio/Listen-Attend-Spell/src/models/decoder.py:150-214 | A search with beam width 1 is greedy decoding: it follows the best candidate until that emits `eos` or the last step forces `eos`. |
| LasBeamSpec.RecognizeBeamOne | Audio/Listen-Attend-Spell/src/models/decoder.py:115-222 | With beam width 1, `recognize_beam` returns the greedy hypothesis when `nbest >= 1`, and nothing when `nbest <= 0`. |
| LasBeamSearch.AppendChildren | Audio/Listen-Attend-Spell/src/models/decoder.py:177-187 | The inner `for j in range(beam)` loop appends exactly the `beam` children, in order. |
| LasBeamSearch.PruneWith | Audio/Listen-Attend-Spell/src/models/decoder.py:153-191 | Processing one parent (feeding `yseq[i]`, appending its children, sorting and cutting) computes `LasBeamSpec.PruneStep`, with exactly `beam` entries. |
| LasBeamSearch.ExtendAndPrune | Audio/Listen-Attend-Spell/src/models/decoder.py:151-193 | The `for hyp in hyps` loop, feeding `yseq[i]`, computes `LasBeamSpec.KeepBest` from an empty kept list: at most `beam` entries, and exactly `beam` entries, sorted, when `hyps` is non-empty. |
| LasBeamSearch.AppendEosToAll | Audio/Listen-Attend-Spell/src/models/decoder.py:196-198 | The in-place append loop computes the forced-`eos` beam, and every entry then ends with `eos`. |
| LasBeamSearch.SplitEnded | Audio/Listen-Attend-Spell/src/models/decoder.py:202-209 | The split loop appends the ended entries to `ended_hyps` and collects the rest, in order. Together they hold as many entries as before. |
| LasBeamSearch.DecodeStep | Audio/Listen-Attend-Spell/src/models/decoder.py:151-209 | One step computes the split of `LasBeamSpec.StepBeam`. The remaining hypotheses hold `i + 2` ids starting with `sos`, and none remain after step `maxlen - 1`. |
| LasBeamSearch.Decode | Audio/Listen-Attend-Spell/src/models/decoder.py:145-219 | The step loop, starting from the single `sos` hypothesis and leaving through `break` once nothing is active, yields the ended list of `LasBeamSpec.Search`. |
| LasBeamSearch.RecognizeBeam | Audio/Listen-Attend-Spell/src/models/decoder.py:115-222 | The loop with its early `break` returns `LasBeamSpec.RecognizeBeamSpec` under the `decode_max_len` rule. It is sorted, all entries are completed, it has at most `nbest` entries, and at least `min(nbest, beam)` when `maxlen >= 1`. With `decode_max_len` 0 no result holds more than `encoder length + 2` ids. |
| LasTargets.StripIgnore | Audio/Listen-Attend-Spell/src/models/decoder.py:60 | `y[y != IGNORE_ID]` holds no ignore id and is no longer than `y`. A target without ignore ids comes back unchanged. |
| LasTargets.StripIgnoreSpec | Audio/Listen-Attend-Spell/src/models/decoder.py:60 | The strip keeps exactly the ids other than the ignore id, each as often as it occurs in the target. |
| LasTargets.StripIgnoreAppend | Audio/Listen-Attend-Spell/src/models/decoder.py:60 | The strip keeps order: stripping `a + b` gives the strip of `a` followed by the strip of `b`. |
| LasTargets.StripPadList | Audio/Listen-Attend-Spell/src/models/decoder.py:60 | Stripping undoes padding with the ignore id: targets without ignore ids, padded to a common width, strip back to the original targets. |
| LasTargets.PadList | Audio/Listen-Attend-Spell/src/models/decoder.py:69-70 | Every row is padded with the fill value to the widest row's width, and each original row is a prefix of its padded row. |
| LasTargets.MaxRowLen | Audio/Listen-Attend-Spell/src/models/decoder.py:69-70 | The padded width is the length of some row and bounds every row. |
| LasTargets.PrepareTargets | Audio/Listen-Attend-Spell/src/models/decoder.py:60-71 | Target preparation fails (no `ys[0]`) exactly on an empty batch. |
| LasTargets.PrepareTargetsSpec | Audio/Listen-Attend-Spell/src/models/decoder.py:60-71 | The padded input and output batches have the same shape, as the assertion requires: each row is one wider than the longest target. Input rows start with `sos`, output rows hold `eos` right after the target, and `ys_in[t+1] == ys_out[t] == y[t]`. When `eos` is not the ignore id, exactly the output positions after `eos` are ignored. |
| LasTargets.PaddedWidth | Audio/Listen-Attend-Spell/src/models/decoder.py:64-70 | Both padded batches are one wider than the longest stripped target. |
| LasTargets.PaddedRow | Audio/Listen-Attend-Spell/src/models/decoder.py:64-70 | One padded input row is the padded output row shifted right by one over the target. |
| LasTargets.SameRowLengths | Audio/Listen-Attend-Spell/src/models/decoder.py:71 | Batches with pairwise equal row lengths are padded to the same width. |
| StyleGanPadding.Half | Vision/gan/stylegan2/model.py:31-32 | `a // 2` is floor division, also for negative `a`. |
| StyleGanPadding.UpsamplePad | Vision/gan/stylegan2/model.py:30-33 | `pad0 + pad1 == K - 1`, and `pad0 - pad1` is `factor - 1`, plus one when `K - factor` is odd. |
| StyleGanPadding.DefaultUpsamplePad | Vision/gan/stylegan2/model.py:30-33 | Kernel `[1,3,3,1]` with factor 2 gives the padding `(2, 1)`. |
| StyleGanPadding.UpsampleBlurPad | Vision/gan/stylegan2/model.py:146-151 | `pad0 + pad1 == K - ks + 1`. |
| StyleGanPadding.DefaultUpsampleBlurPad | Vision/gan/stylegan2/model.py:146-151 | `K = 4`, `ks = 3` gives the padding `(1, 1)`. |
| StyleGanPadding.DownsampleBlurPad | Vision/gan/stylegan2/model.py:153-158 | `pad0 + pad1 == K + ks - 3`, and `pad0` is `pad1` or `pad1 + 1`. |
| StyleGanPadding.ModulatedConvScale | Vision/gan/stylegan2/model.py:146-220 | With only `upsample` set, the layer outputs twice the input width. With only `downsample` set, it halves an even width. With neither, an odd kernel keeps the width. With both set, `forward` takes the upsampling path with the downsampling blur, and the width is `2 * ks - 4` above double. |
| StyleGanPadding.ConvPadding | Vision/gan/stylegan2/model.py:162 | `ks // 2` is `(ks - 1) / 2` for odd `ks` and `ks / 2` for even `ks`. |
| StyleGanPadding.UpsamplingDoubles | Vision/gan/stylegan2/model.py:146-151 | With these paddings, `Upsample` and the transposed convolution followed by its blur both output exactly twice the input width. |
| StyleGanPadding.ConvPathsKeepScale | Vision/gan/stylegan2/model.py:153-162 | The blur followed by a stride-2 convolution halves an even width. A padded convolution with an odd kernel keeps the width. |
| StyleGanGenerator.Log2 | Vision/gan/stylegan2/model.py:255 | The log size is the largest `r` with `2^r <= size`. |
| StyleGanGenerator.Log2OfPow2 | Vision/gan/stylegan2/model.py:255 | On a power of two the log size is exact: `2^log_size == size`. |
| StyleGanGenerator.ChannelsCover | Vision/gan/stylegan2/model.py:239-249 | The channel table has an entry for `2^2 .. 2^10` and none above. |
| StyleGanGenerator.NoiseSidesPerStage | Vision/gan/stylegan2/model.py:265-268 | Noise buffer 0 is 4 x 4. Buffers `2k - 1` and `2k` share the side `2^(k + 2)`. |
| StyleGanGenerator.Strided | Vision/gan/stylegan2/model.py:318-320 | `s[start::2]` has `ceil((len - start) / 2)` entries, and entry `k` is `s[start + 2k]`. |
| StyleGanGenerator.ZipLength | Vision/gan/stylegan2/model.py:318-320 | The zip never reads past the noise list. With `2s` convolutions, `s` RGB layers and at least `2s + 1` noise entries it yields all `s` stages, so nothing is dropped. |
| StyleGanGenerator.StagedTraceNoise | Vision/gan/stylegan2/model.py:315-325 | A forward pass with `n` stages consumes the noise entries `0 .. 2n`, each exactly once, in order. |
| StyleGanGenerator.StagedTraceLatents | Vision/gan/stylegan2/model.py:315-325 | A forward pass with `n` stages reads exactly the latent rows `0 .. 2n + 1`, and its last layer reads row `2n + 1`. |
| StyleGanGenerator.Generator.constructor | Vision/gan/stylegan2/model.py:251-283 | The generator is built with:<br>- `num_layers == 2(L - 2) + 1`;<br>- one noise buffer per layer;<br>- `2(L - 2)` styled convolutions;<br>- `L - 2` RGB layers with the table's channels;<br>- `n_latent == 2L - 2`. |
| StyleGanGenerator.Generator.NoiseBuffers | Vision/gan/stylegan2/model.py:265-268 | The loop registers `num_layers` buffers, and buffer `layer_idx` has side `2^((layer_idx + 5) // 2)`. |
| StyleGanGenerator.Generator.StageLayers | Vision/gan/stylegan2/model.py:270-281 | For each `i` in `3..L`, the loop appends an upsampling convolution (previous channels to `channels[2^i]`), a channel-keeping convolution and an upsampling RGB layer. |
| StyleGanGenerator.Generator.ChannelsChain | Vision/gan/stylegan2/model.py:270-281 | Each convolution takes the channels the previous one produces, each RGB layer takes its stage's channels, and the last stage has the output resolution's channel count. |
| StyleGanGenerator.Generator.NoiseBufferEnds | Vision/gan/stylegan2/model.py:265-268 | The first noise buffer is 4 x 4 and the last one has side `size`. |
| StyleGanGenerator.Generator.MixStyles | Vision/gan/stylegan2/model.py:301-313 | The latent always has `n_latent` rows. With one style every row comes from it. With two styles, rows before `inject_index` come from the first and the rest from the second. A drawn index lies in `[1, n_latent - 1]`, so both parts are non-empty. No style, or a given index outside `[0, n_latent]`, is an error. |
| StyleGanGenerator.Generator.RunStages | Vision/gan/stylegan2/model.py:315-325 | The walk with `i += 2` has conv layer `t` read latent row `t` and noise entry `t`. RGB layer `k` reads row `2k + 1`. |
| StyleGanGenerator.Generator.Forward | Vision/gan/stylegan2/model.py:315-325 | An empty noise list is an error. Every latent row read lies in `[0, n_latent)`. With one noise entry per layer, all `L - 2` stages run, each noise entry is used exactly once in layer order, every latent row is read, and the last layer reads row `n_latent - 1`. |

## Left out

- The decoder's tensor numerics are not modelled; they are the `TopK` oracle:
  - embedding, LSTM stack, attention, MLP, softmax and log (decoder.py:155-175);
  - the `topk` call, which needs `beam <= vocab_size` — `BeamWide` stands for that.
- Scores are integers, not floats, so float rounding in the score sums is not modelled.
- The teacher-forced decoding pass of `forward` and its cross-entropy loss (decoder.py:72-112) are framework numerics.
- `pad_list` and `IGNORE_ID` come from the `utils` module, which is not part of this model. `pad_list` is modelled as "pad every row to the widest row with the fill value". `IGNORE_ID` is -1, as the comment on the padding call says.
- The printing in `recognize_beam` and its `char_list` lookups (decoder.py:210-218) are output only.
- `recognize_beam` reads `args.beam_size`, `args.nbest` and `args.decode_max_len`. They are parameters here, and the encoder output enters only through its length.
- `nbest` is not validated by the code: a negative `nbest` follows Python's slice rule.
- An encoder output with zero frames (and `decode_max_len == 0`) runs no step, and `recognize_beam` returns an empty list (`DecodeCap`).
- `beam` is a `nat`: a negative `beam_size`, which the code hands to `topk` (decoder.py:174-175), is not modelled.
- StyleGAN2 tensor work is not modelled: kernels, modulation, convolutions, `upfirdn2d`, activations, `EqualLinear`, `PixelNorm`, the style MLP, truncation and the constant input. The output-size rules in `StyleGanPadding` (`UpFirDnWidth`, `TransposedConvWidth`, `ConvWidth`) are those of the framework's operations and are stated, not derived from its code.
- Noise sampling is not modelled: a noise buffer is represented by its side.
- `random.randint` in `forward` is a nondeterministic choice in `[1, n_latent - 1]`.
- `StyleGanGenerator.Generator.constructor`:
  - It takes the exact `log2` of a power-of-two `size` between 4 and 1024, in place of `int(math.log(size, 2))`. Sizes that are not powers of two are excluded.
  - Above 1024 the channel table lookup fails (`ChannelsCover`).
  - `style_dim`, `n_mlp`, `blur_kernel` and `lr_mlp` do not affect the counts and are not parameters.
- `StyleGanGenerator.Generator.Forward`:
  - It takes the noise list as given. When `noise` is `None`, `forward` builds one entry per layer, which is the `|noise| >= num_layers` case of the contract.
  - `styles` passed through the style MLP, `return_latents` and the image itself are not modelled.
- `StyleGanGenerator.Generator.MixStyles`:
  - It models 2-D styles. A single 3-D style, which is used as the latent as it is, is not modelled.
  - A negative repeat count is treated as an error.
- `Audio/Listen-Attend-Spell/src/bin/train.py` is not modelled: it is argument parsing and training wiring.
- `wide_and_deep/eager_train_consistent.py` is not modelled: it is distributed training and float metrics.
