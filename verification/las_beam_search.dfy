/**
 * `Decoder.recognize_beam` as the loops the source runs: the per-step loop
 * over the active hypotheses with the inner loop over the `beam`
 * candidates, the forced end-of-sentence append, the split into ended and
 * remaining hypotheses, and the early exit. Each method is proved to compute
 * the corresponding function of LasBeamSpec.
 */
module LasBeamSearch {
  import opened Wrappers
  import opened LasHypotheses
  import opened LasBeamSpec

  /** Lines 177-187: the `beam` children of `hyp`, appended in candidate order. */
  method AppendChildren(kept: seq<Hyp>, hyp: Hyp, cands: seq<Cand>, beam: nat) returns (r: seq<Hyp>)
    requires |cands| == beam
    ensures r == kept + Children(hyp, cands)
    ensures |r| == |kept| + beam
  {
    r := kept;
    var j := 0;
    while j < beam
      invariant 0 <= j <= beam
      invariant r == kept + Children(hyp, cands[..j])
    {
      r := r + [Child(hyp, cands[j])];
      j := j + 1;
      assert cands[..j][..j - 1] == cands[..j - 1];
    }
    assert cands[..beam] == cands;
  }

  /**
   * Lines 153-191 for one parent at step `i`: feed its token `yseq[i]`,
   * append its `beam` children to the kept list, then sort and cut to `beam`.
   */
  method PruneWith(topk: TopK, beam: nat, i: nat, kept: seq<Hyp>, hyp: Hyp) returns (kept': seq<Hyp>)
    requires BeamWide(topk, beam)
    requires |hyp.yseq| == i + 1
    ensures kept' == PruneStep(topk, beam, kept, hyp)
    ensures |kept'| == beam
  {
    var cands := topk(hyp.yseq[..i], hyp.yseq[i]);
    assert cands == Scored(topk, hyp);
    var all := AppendChildren(kept, hyp, cands, beam);
    PruneStepSize(topk, beam, kept, hyp);
    kept' := Take(SortByScore(all), beam);
  }

  /** One pass of `for hyp in hyps` at step `i`, starting from an empty kept list. */
  method ExtendAndPrune(topk: TopK, beam: nat, i: nat, hyps: seq<Hyp>) returns (kept: seq<Hyp>)
    requires BeamWide(topk, beam)
    requires forall h :: h in hyps ==> |h.yseq| == i + 1
    ensures kept == KeepBest(topk, beam, [], hyps)
    ensures |kept| <= beam
    ensures hyps != [] ==> |kept| == beam && SortedByScore(kept)
  {
    kept := [];
    var k := 0;
    while k < |hyps|
      invariant 0 <= k <= |hyps|
      invariant KeepBest(topk, beam, kept, hyps[k..]) == KeepBest(topk, beam, [], hyps)
      invariant |kept| <= beam
    {
      assert hyps[k] in hyps;
      assert hyps[k..][1..] == hyps[k + 1..];
      kept := PruneWith(topk, beam, i, kept, hyps[k]);
      k := k + 1;
    }
    KeepBestSpec(topk, beam, [], hyps);
  }

  /** `for hyp in hyps: hyp['yseq'].append(eos_id)`, entry by entry. */
  method AppendEosToAll(hyps: seq<Hyp>, eos: int) returns (r: seq<Hyp>)
    ensures r == ForceEos(hyps, eos)
    ensures forall h :: h in r ==> Last(h) == eos
  {
    r := hyps;
    var k := 0;
    while k < |r|
      invariant 0 <= k <= |r| == |hyps|
      invariant forall m :: 0 <= m < k ==> r[m] == AppendEos(hyps[m], eos)
      invariant forall m :: k <= m < |r| ==> r[m] == hyps[m]
    {
      r := r[k := Hyp(r[k].score, r[k].yseq + [eos])];
      k := k + 1;
    }
  }

  /**
   * The split of lines 202-209: entries ending with `eos` are appended to
   * `ended`, the others collected in order as the new active list.
   */
  method SplitEnded(hyps: seq<Hyp>, eos: int, ended: seq<Hyp>) returns (ended': seq<Hyp>, remained: seq<Hyp>)
    ensures ended' == ended + EndedOf(hyps, eos)
    ensures remained == RemainedOf(hyps, eos)
    ensures |ended'| + |remained| == |ended| + |hyps|
  {
    ended' := ended;
    remained := [];
    var k := 0;
    while k < |hyps|
      invariant 0 <= k <= |hyps|
      invariant ended' == ended + EndedOf(hyps[..k], eos)
      invariant remained == RemainedOf(hyps[..k], eos)
    {
      assert hyps[..k + 1][..k] == hyps[..k];
      if Last(hyps[k]) == eos {
        ended' := ended' + [hyps[k]];
      } else {
        remained := remained + [hyps[k]];
      }
      k := k + 1;
    }
    assert hyps[..k] == hyps;
    PartitionSpec(hyps, eos);
  }

  /**
   * Lines 151-209 for step `i`: extend and prune, force `eos` at the last
   * step, and split the beam into ended and remaining hypotheses.
   */
  method DecodeStep(topk: TopK, beam: nat, sos: int, eos: int, maxlen: int, i: nat, hyps: seq<Hyp>, ended: seq<Hyp>)
    returns (ended': seq<Hyp>, remained: seq<Hyp>)
    requires BeamWide(topk, beam)
    requires ShapedAt(hyps, i + 1, sos)
    ensures ended' == ended + EndedOf(StepBeam(topk, beam, eos, maxlen, i, hyps), eos)
    ensures remained == RemainedOf(StepBeam(topk, beam, eos, maxlen, i, hyps), eos)
    ensures ShapedAt(remained, i + 2, sos)
    ensures i == maxlen - 1 ==> remained == []
  {
    var kept := ExtendAndPrune(topk, beam, i, hyps);
    KeepBestShaped(topk, beam, hyps, i + 1, sos);
    var b := kept;
    if i == maxlen - 1 {
      b := AppendEosToAll(kept, eos);
      ForceEosEndsAll(kept, eos);
    }
    ended', remained := SplitEnded(b, eos, ended);
    SplitMembers(b, eos);
  }

  /**
   * Lines 145-219: the step loop from the single `sos` hypothesis, leaving
   * early once no hypothesis is active. It yields the specification's
   * ended list.
   */
  method Decode(topk: TopK, sos: int, eos: int, beam: nat, maxlen: int) returns (endedHyps: seq<Hyp>)
    requires BeamWide(topk, beam)
    ensures endedHyps == Search(topk, beam, eos, maxlen, 0, Initial(sos), [])
  {
    var hyps := Initial(sos);
    endedHyps := [];
    ghost var final := Search(topk, beam, eos, maxlen, 0, hyps, endedHyps);
    var i := 0;
    while i < maxlen
      invariant 0 <= i && (i == 0 || i < maxlen)
      invariant ShapedAt(hyps, i + 1, sos)
      invariant Search(topk, beam, eos, maxlen, i, hyps, endedHyps) == final
    {
      ghost var search := Search(topk, beam, eos, maxlen, i, hyps, endedHyps);
      var remained;
      endedHyps, remained := DecodeStep(topk, beam, sos, eos, maxlen, i, hyps, endedHyps);
      assert search == if remained == [] then endedHyps else Search(topk, beam, eos, maxlen, i + 1, remained, endedHyps);
      hyps := remained;
      if |hyps| == 0 {
        break;
      }
      i := i + 1;
    }
  }

  /**
   * The whole beam search for one utterance. `encoderLen` is the number of
   * encoder frames; `decodeMaxLen` 0 means "cap at the encoder length".
   * The result is the n-best list: sorted by score, every entry a
   * completed hypothesis (starting with `sos`, ending with `eos`, at most
   * `maxlen + 2` ids), no more than `nbest` of them, and at least
   * `min(nbest, beam)` when at least one step runs.
   */
  method RecognizeBeam(topk: TopK, sos: int, eos: int, beam: nat, nbest: int, encoderLen: nat, decodeMaxLen: int)
    returns (nbestHyps: seq<Hyp>)
    requires BeamWide(topk, beam)
    ensures nbestHyps == RecognizeBeamSpec(topk, sos, eos, beam, nbest, DecodeMaxLen(encoderLen, decodeMaxLen))
    ensures SortedByScore(nbestHyps)
    ensures Completed(nbestHyps, sos, eos, DecodeMaxLen(encoderLen, decodeMaxLen))
    ensures nbest >= 0 ==> |nbestHyps| <= nbest
    ensures nbest >= 0 && DecodeMaxLen(encoderLen, decodeMaxLen) >= 1 ==> |nbestHyps| >= Min(nbest, beam)
    ensures decodeMaxLen == 0 ==> forall h :: h in nbestHyps ==> |h.yseq| <= encoderLen + 2
  {
    var maxlen := if decodeMaxLen == 0 then encoderLen else decodeMaxLen;
    var endedHyps := Decode(topk, sos, eos, beam, maxlen);
    nbestHyps := NBest(endedHyps, nbest);
    RecognizeBeamSpecProperties(topk, sos, eos, beam, nbest, maxlen);
    DecodeCap(topk, sos, eos, beam, nbest, encoderLen, decodeMaxLen);
  }
}
