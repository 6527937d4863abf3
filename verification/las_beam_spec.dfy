/**
 * The beam search of the LAS decoder (`Decoder.recognize_beam`) as
 * functions: one decode step, the whole search and the n-best selection,
 * with the invariants the search keeps. The network that scores the next
 * token (embedding, LSTM stack, attention, MLP, softmax, log and topk) is an
 * oracle of type TopK.
 */
module LasBeamSpec {
  import opened Wrappers
  import opened LasHypotheses

  /**
   * The scoring model: given the ids a hypothesis emitted before its last
   * one (which determine its recurrent state and attention context) and
   * the last id (the token fed in as `vy`), the `beam` best (local score,
   * id) pairs, as `topk` returns them.
   */
  type TopK = (seq<int>, int) -> seq<Cand>

  /** `topk(local_scores, beam)` always yields exactly `beam` pairs. */
  ghost predicate BeamWide(topk: TopK, beam: nat)
  {
    forall hist, tok :: |topk(hist, tok)| == beam
  }

  /** The oracle's candidates for extending `h`. */
  function Scored(topk: TopK, h: Hyp): seq<Cand>
  {
    topk(h.yseq[..|h.yseq| - 1], Last(h))
  }

  /**
   * The work done for one parent: append its children to the kept list,
   * sort by score (stable, descending) and cut back to `beam` entries.
   */
  function PruneStep(topk: TopK, beam: nat, kept: seq<Hyp>, p: Hyp): seq<Hyp>
  {
    Take(SortByScore(kept + Children(p, Scored(topk, p))), beam)
  }

  /** `for hyp in hyps: ...` starting from the list `kept`. */
  function KeepBest(topk: TopK, beam: nat, kept: seq<Hyp>, hyps: seq<Hyp>): seq<Hyp>
    decreases |hyps|
  {
    if hyps == [] then kept
    else KeepBest(topk, beam, PruneStep(topk, beam, kept, hyps[0]), hyps[1..])
  }

  /** Every child of every hypothesis of `hyps`, in generation order. */
  function AllChildren(topk: TopK, hyps: seq<Hyp>): seq<Hyp>
  {
    if hyps == [] then []
    else Children(hyps[0], Scored(topk, hyps[0])) + AllChildren(topk, hyps[1..])
  }

  /** `hyp['yseq'].append(eos_id)`. */
  function AppendEos(h: Hyp, eos: int): (r: Hyp)
    ensures |r.yseq| == |h.yseq| + 1
    ensures r.score == h.score && r.yseq[..|h.yseq|] == h.yseq && Last(r) == eos
  {
    Hyp(h.score, h.yseq + [eos])
  }

  /** The forced termination at the last step: every entry gets `eos` appended. */
  function ForceEos(hs: seq<Hyp>, eos: int): (r: seq<Hyp>)
    ensures |r| == |hs|
    ensures forall k :: 0 <= k < |hs| ==> r[k] == AppendEos(hs[k], eos)
  {
    if hs == [] then []
    else ForceEos(hs[..|hs| - 1], eos) + [AppendEos(hs[|hs| - 1], eos)]
  }

  /** The entries of `hs` whose last id is `eos`, in order. */
  function EndedOf(hs: seq<Hyp>, eos: int): seq<Hyp>
  {
    if hs == [] then []
    else
      var init := EndedOf(hs[..|hs| - 1], eos);
      if Last(hs[|hs| - 1]) == eos then init + [hs[|hs| - 1]] else init
  }

  /** The entries of `hs` whose last id is not `eos`, in order. */
  function RemainedOf(hs: seq<Hyp>, eos: int): seq<Hyp>
  {
    if hs == [] then []
    else
      var init := RemainedOf(hs[..|hs| - 1], eos);
      if Last(hs[|hs| - 1]) != eos then init + [hs[|hs| - 1]] else init
  }

  /** The decode length cap: the encoder length when `decode_max_len` is 0. */
  function DecodeMaxLen(encoderLen: nat, decodeMaxLen: int): (maxlen: int)
    ensures decodeMaxLen == 0 ==> maxlen == encoderLen
    ensures decodeMaxLen != 0 ==> maxlen == decodeMaxLen
  {
    if decodeMaxLen == 0 then encoderLen else decodeMaxLen
  }

  /** The beam a step ends with, before it is split: forced to end at the last step. */
  function StepBeam(topk: TopK, beam: nat, eos: int, maxlen: int, i: int, hyps: seq<Hyp>): seq<Hyp>
  {
    var kept := KeepBest(topk, beam, [], hyps);
    if i == maxlen - 1 then ForceEos(kept, eos) else kept
  }

  /**
   * Steps `i`, `i + 1`, ... of the search from the active list `hyps` and
   * the ended list `ended`; the result is the final ended list.
   */
  function Search(topk: TopK, beam: nat, eos: int, maxlen: int, i: int, hyps: seq<Hyp>, ended: seq<Hyp>): seq<Hyp>
    decreases maxlen - i
  {
    if i >= maxlen then ended
    else
      var b := StepBeam(topk, beam, eos, maxlen, i, hyps);
      var remained := RemainedOf(b, eos);
      if remained == [] then ended + EndedOf(b, eos)
      else Search(topk, beam, eos, maxlen, i + 1, remained, ended + EndedOf(b, eos))
  }

  /** The single starting hypothesis: score 0, sequence `[sos]`. */
  function Initial(sos: int): seq<Hyp>
  {
    [Hyp(0, [sos])]
  }

  /** `sorted(ended_hyps, key=score, reverse=True)[:min(len(ended_hyps), nbest)]`. */
  function NBest(ended: seq<Hyp>, nbest: int): seq<Hyp>
  {
    PyPrefix(SortByScore(ended), Min(|ended|, nbest))
  }

  /** What `recognize_beam` returns. */
  function RecognizeBeamSpec(topk: TopK, sos: int, eos: int, beam: nat, nbest: int, maxlen: int): seq<Hyp>
  {
    NBest(Search(topk, beam, eos, maxlen, 0, Initial(sos), []), nbest)
  }

  // ---------------------------------------------------------------------
  // Pruning after one parent

  /** Keeping a prefix of a list keeps a prefix of each tie class. */
  lemma {:induction false} TiedPrefix(r: seq<Hyp>, s: seq<Hyp>, v: int)
    requires r <= s
    ensures Tied(r, v) <= Tied(s, v)
  {
    if r != [] {
      assert r[1..] <= s[1..];
      TiedPrefix(r[1..], s[1..], v);
    }
  }

  /**
   * After one parent's children are appended (at most 2 * beam entries),
   * the kept list is sorted by score, holds exactly `beam` entries, holds
   * only entries it was given, keeps the best of them (no entry dropped
   * scores above an entry kept), and among entries of equal score keeps the
   * earliest generated ones.
   */
  lemma PruneStepSpec(topk: TopK, beam: nat, kept: seq<Hyp>, p: Hyp)
    requires BeamWide(topk, beam) && |kept| <= beam
    ensures |kept + Children(p, Scored(topk, p))| <= 2 * beam
    ensures SortedByScore(PruneStep(topk, beam, kept, p))
    ensures |PruneStep(topk, beam, kept, p)| == beam
    ensures multiset(PruneStep(topk, beam, kept, p)) <= multiset(kept + Children(p, Scored(topk, p)))
    ensures forall h, g ::
      (h in PruneStep(topk, beam, kept, p) &&
       g in multiset(kept + Children(p, Scored(topk, p))) - multiset(PruneStep(topk, beam, kept, p))) ==>
        g.score <= h.score
    ensures forall v :: Tied(PruneStep(topk, beam, kept, p), v) <= Tied(kept + Children(p, Scored(topk, p)), v)
  {
    var cs := Scored(topk, p);
    var all := kept + Children(p, cs);
    var sorted := SortByScore(all);
    var r := PruneStep(topk, beam, kept, p);
    assert |cs| == beam;
    assert |all| == |kept| + beam;
    assert r == Take(sorted, beam) && r <= sorted;
    assert |sorted| == |all| && SortedByScore(sorted) by {
      SortByScoreSpec(all);
    }
    assert |r| == beam && SortedByScore(r) by {
      PrefixSorted(sorted, r);
    }
    assert multiset(r) <= multiset(all) by {
      TakeSortBest(all, beam);
    }
    assert (forall h: Hyp, g: Hyp :: h in r && g in multiset(all) - multiset(r) ==> g.score <= h.score) by {
      TakeSortBest(all, beam);
    }
    forall v ensures Tied(r, v) <= Tied(all, v) {
      SortByScoreSpec(all);
      TiedPrefix(r, sorted, v);
    }
  }

  /** With `beam` candidates per parent, pruning always keeps exactly `beam` entries. */
  lemma PruneStepSize(topk: TopK, beam: nat, kept: seq<Hyp>, p: Hyp)
    requires BeamWide(topk, beam)
    ensures |PruneStep(topk, beam, kept, p)| == beam
  {
    SortByScoreSpec(kept + Children(p, Scored(topk, p)));
  }

  /** Entries of a sub-multiset are entries of the larger one's list. */
  lemma SubMultisetMembers(r: seq<Hyp>, s: seq<Hyp>)
    requires multiset(r) <= multiset(s)
    ensures forall h :: h in r ==> h in s
  {
    forall h | h in r ensures h in s {
      assert h in multiset(r);
    }
  }

  /**
   * The loop over the active hypotheses keeps at most `beam` entries, exactly
   * `beam` once a parent has been processed, sorted by score; every kept
   * entry was kept before or is a child of an active hypothesis.
   */
  lemma {:induction false} KeepBestSpec(topk: TopK, beam: nat, kept: seq<Hyp>, hyps: seq<Hyp>)
    requires BeamWide(topk, beam) && |kept| <= beam
    ensures |KeepBest(topk, beam, kept, hyps)| <= beam
    ensures hyps != [] ==> |KeepBest(topk, beam, kept, hyps)| == beam
    ensures hyps != [] ==> SortedByScore(KeepBest(topk, beam, kept, hyps))
    ensures forall h :: h in KeepBest(topk, beam, kept, hyps) ==> h in kept || h in AllChildren(topk, hyps)
    decreases |hyps|
  {
    if hyps != [] {
      var next := PruneStep(topk, beam, kept, hyps[0]);
      var ch := Children(hyps[0], Scored(topk, hyps[0]));
      PruneStepSpec(topk, beam, kept, hyps[0]);
      KeepBestSpec(topk, beam, next, hyps[1..]);
      SubMultisetMembers(next, kept + ch);
      assert AllChildren(topk, hyps) == ch + AllChildren(topk, hyps[1..]);
    }
  }

  /**
   * The pooled list holds exactly the children of the active hypotheses: an
   * entry is pooled if and only if it extends some active hypothesis by one
   * of that hypothesis's candidates.
   */
  lemma AllChildrenSpec(topk: TopK, hyps: seq<Hyp>, h: Hyp)
    ensures h in AllChildren(topk, hyps) <==> exists p, c :: p in hyps && c in Scored(topk, p) && h == Child(p, c)
  {
    if h in AllChildren(topk, hyps) {
      AllChildrenFrom(topk, hyps, h);
    }
    if exists p, c :: p in hyps && c in Scored(topk, p) && h == Child(p, c) {
      var p, c :| p in hyps && c in Scored(topk, p) && h == Child(p, c);
      AllChildrenHas(topk, hyps, p, c);
    }
  }

  lemma {:induction false} AllChildrenFrom(topk: TopK, hyps: seq<Hyp>, h: Hyp)
    requires h in AllChildren(topk, hyps)
    ensures exists p, c :: p in hyps && c in Scored(topk, p) && h == Child(p, c)
  {
    var cs := Scored(topk, hyps[0]);
    var ch := Children(hyps[0], cs);
    if h in ch {
      var j :| 0 <= j < |ch| && ch[j] == h;
      assert cs[j] in cs;
    } else {
      AllChildrenFrom(topk, hyps[1..], h);
      var p, c :| p in hyps[1..] && c in Scored(topk, p) && h == Child(p, c);
      assert p in hyps;
    }
  }

  lemma {:induction false} AllChildrenHas(topk: TopK, hyps: seq<Hyp>, p: Hyp, c: Cand)
    requires p in hyps && c in Scored(topk, p)
    ensures Child(p, c) in AllChildren(topk, hyps)
  {
    var cs := Scored(topk, hyps[0]);
    var ch := Children(hyps[0], cs);
    assert AllChildren(topk, hyps) == ch + AllChildren(topk, hyps[1..]);
    if p == hyps[0] {
      var j :| 0 <= j < |cs| && cs[j] == c;
      assert ch[j] == Child(p, c);
    } else {
      assert p in hyps[1..];
      AllChildrenHas(topk, hyps[1..], p, c);
    }
  }

  /**
   * Pruning after every parent keeps the same beam as one stable sort of
   * the kept list and all the children, cut to `beam`.
   */
  lemma {:induction false} KeepBestAll(topk: TopK, beam: nat, x: seq<Hyp>, hyps: seq<Hyp>)
    ensures KeepBest(topk, beam, Take(SortByScore(x), beam), hyps) == Take(SortByScore(x + AllChildren(topk, hyps)), beam)
    decreases |hyps|
  {
    if hyps == [] {
      assert x + [] == x;
    } else {
      var ch := Children(hyps[0], Scored(topk, hyps[0]));
      var x' := x + ch;
      PruneStepAll(topk, beam, x, hyps[0]);
      assert KeepBest(topk, beam, Take(SortByScore(x), beam), hyps) == KeepBest(topk, beam, Take(SortByScore(x'), beam), hyps[1..]);
      KeepBestAll(topk, beam, x', hyps[1..]);
      AllChildrenCons(topk, x, hyps);
    }
  }

  /** The pooled children of `hyps` are those of its first entry, then those of the rest. */
  lemma AllChildrenCons(topk: TopK, x: seq<Hyp>, hyps: seq<Hyp>)
    requires hyps != []
    ensures x + Children(hyps[0], Scored(topk, hyps[0])) + AllChildren(topk, hyps[1..]) == x + AllChildren(topk, hyps)
  {
  }

  /** Pruning after one parent, from a list that is itself a sorted cut of `x`. */
  lemma PruneStepAll(topk: TopK, beam: nat, x: seq<Hyp>, p: Hyp)
    ensures PruneStep(topk, beam, Take(SortByScore(x), beam), p) ==
      Take(SortByScore(x + Children(p, Scored(topk, p))), beam)
  {
    TakeSortAppend(x, Children(p, Scored(topk, p)), beam);
  }

  /**
   * A step keeps the `beam` best children of all active hypotheses: the
   * per-parent sort-and-cut of the loop gives the first `beam` entries of
   * one stable sort of every child, in generation order. So the kept
   * entries are children, and no child left out scores above a kept one.
   */
  lemma KeepBestGlobal(topk: TopK, beam: nat, hyps: seq<Hyp>)
    ensures KeepBest(topk, beam, [], hyps) == Take(SortByScore(AllChildren(topk, hyps)), beam)
    ensures multiset(KeepBest(topk, beam, [], hyps)) <= multiset(AllChildren(topk, hyps))
    ensures forall h, g ::
      (h in KeepBest(topk, beam, [], hyps) &&
       g in multiset(AllChildren(topk, hyps)) - multiset(KeepBest(topk, beam, [], hyps))) ==>
        g.score <= h.score
  {
    KeepBestAll(topk, beam, [], hyps);
    assert [] + AllChildren(topk, hyps) == AllChildren(topk, hyps);
    TakeSortBest(AllChildren(topk, hyps), beam);
  }

  // ---------------------------------------------------------------------
  // Shapes of active and ended hypotheses

  /** Every entry holds `n` ids and starts with `sos`. */
  predicate ShapedAt(hs: seq<Hyp>, n: nat, sos: int)
  {
    forall h :: h in hs ==> |h.yseq| == n && h.yseq[0] == sos
  }

  /** At step `i` every active hypothesis holds `i + 1` ids, so `yseq[i]` is its last. */
  lemma KeepBestShaped(topk: TopK, beam: nat, hyps: seq<Hyp>, n: nat, sos: int)
    requires BeamWide(topk, beam) && ShapedAt(hyps, n, sos)
    ensures ShapedAt(KeepBest(topk, beam, [], hyps), n + 1, sos)
  {
    KeepBestSpec(topk, beam, [], hyps);
    forall h | h in KeepBest(topk, beam, [], hyps) ensures |h.yseq| == n + 1 && h.yseq[0] == sos {
      AllChildrenSpec(topk, hyps, h);
      var p, c :| p in hyps && c in Scored(topk, p) && h == Child(p, c);
      assert h.yseq[..|p.yseq|] == p.yseq;
      assert h.yseq[0] == h.yseq[..|p.yseq|][0];
    }
  }

  /** After the forced `eos`, every entry has ended and none remains active. */
  lemma {:induction false} ForceEosEndsAll(hs: seq<Hyp>, eos: int)
    ensures EndedOf(ForceEos(hs, eos), eos) == ForceEos(hs, eos)
    ensures RemainedOf(ForceEos(hs, eos), eos) == []
  {
    if hs != [] {
      var f := ForceEos(hs, eos);
      ForceEosEndsAll(hs[..|hs| - 1], eos);
      assert f[..|f| - 1] == ForceEos(hs[..|hs| - 1], eos);
      assert Last(f[|f| - 1]) == eos;
    }
  }

  /**
   * Splitting the beam into ended and remaining hypotheses loses and adds
   * nothing: every entry goes to exactly one side.
   */
  lemma {:induction false} PartitionSpec(hs: seq<Hyp>, eos: int)
    ensures |EndedOf(hs, eos)| + |RemainedOf(hs, eos)| == |hs|
    ensures multiset(EndedOf(hs, eos)) + multiset(RemainedOf(hs, eos)) == multiset(hs)
  {
    if hs != [] {
      var init := hs[..|hs| - 1];
      var last := hs[|hs| - 1];
      PartitionSpec(init, eos);
      assert hs == init + [last];
      assert multiset(hs) == multiset(init) + multiset{last};
      if Last(last) == eos {
        assert EndedOf(hs, eos) == EndedOf(init, eos) + [last];
        assert RemainedOf(hs, eos) == RemainedOf(init, eos);
      } else {
        assert EndedOf(hs, eos) == EndedOf(init, eos);
        assert RemainedOf(hs, eos) == RemainedOf(init, eos) + [last];
      }
    }
  }

  /**
   * Which entries go where: the ended side holds exactly the entries whose
   * last id is `eos`, the active side exactly the others.
   */
  lemma SplitMembers(hs: seq<Hyp>, eos: int)
    ensures forall k :: 0 <= k < |EndedOf(hs, eos)| ==> Last(EndedOf(hs, eos)[k]) == eos && EndedOf(hs, eos)[k] in hs
    ensures forall k :: 0 <= k < |hs| && Last(hs[k]) == eos ==> hs[k] in EndedOf(hs, eos)
    ensures forall k :: 0 <= k < |RemainedOf(hs, eos)| ==> Last(RemainedOf(hs, eos)[k]) != eos && RemainedOf(hs, eos)[k] in hs
    ensures forall k :: 0 <= k < |hs| && Last(hs[k]) != eos ==> hs[k] in RemainedOf(hs, eos)
  {
    EndedMembers(hs, eos);
    RemainedMembers(hs, eos);
  }

  lemma {:induction false} EndedMembers(hs: seq<Hyp>, eos: int)
    ensures forall k :: 0 <= k < |EndedOf(hs, eos)| ==> Last(EndedOf(hs, eos)[k]) == eos && EndedOf(hs, eos)[k] in hs
    ensures forall k :: 0 <= k < |hs| && Last(hs[k]) == eos ==> hs[k] in EndedOf(hs, eos)
  {
    if hs != [] {
      var init := hs[..|hs| - 1];
      var last := hs[|hs| - 1];
      var e := EndedOf(init, eos);
      var r := EndedOf(hs, eos);
      EndedMembers(init, eos);
      assert hs == init + [last];
      assert r == if Last(last) == eos then e + [last] else e;
      forall k | 0 <= k < |r| ensures Last(r[k]) == eos && r[k] in hs {
        if k < |e| {
          assert r[k] == e[k] && e[k] in init;
        }
      }
      forall k | 0 <= k < |hs| && Last(hs[k]) == eos ensures hs[k] in r {
        if k < |init| {
          assert hs[k] == init[k] && init[k] in e;
        }
      }
    }
  }

  lemma {:induction false} RemainedMembers(hs: seq<Hyp>, eos: int)
    ensures forall k :: 0 <= k < |RemainedOf(hs, eos)| ==> Last(RemainedOf(hs, eos)[k]) != eos && RemainedOf(hs, eos)[k] in hs
    ensures forall k :: 0 <= k < |hs| && Last(hs[k]) != eos ==> hs[k] in RemainedOf(hs, eos)
  {
    if hs != [] {
      var init := hs[..|hs| - 1];
      var last := hs[|hs| - 1];
      var e := RemainedOf(init, eos);
      var r := RemainedOf(hs, eos);
      RemainedMembers(init, eos);
      assert hs == init + [last];
      assert r == if Last(last) != eos then e + [last] else e;
      forall k | 0 <= k < |r| ensures Last(r[k]) != eos && r[k] in hs {
        if k < |e| {
          assert r[k] == e[k] && e[k] in init;
        }
      }
      forall k | 0 <= k < |hs| && Last(hs[k]) != eos ensures hs[k] in r {
        if k < |init| {
          assert hs[k] == init[k] && init[k] in e;
        }
      }
    }
  }

  /**
   * The split keeps beam order: it works entry by entry, so splitting a
   * concatenation concatenates the splits, and a single entry goes to the
   * side its last id selects.
   */
  lemma SplitInOrder(a: seq<Hyp>, b: seq<Hyp>, eos: int)
    ensures EndedOf(a + b, eos) == EndedOf(a, eos) + EndedOf(b, eos)
    ensures RemainedOf(a + b, eos) == RemainedOf(a, eos) + RemainedOf(b, eos)
  {
    EndedAppend(a, b, eos);
    RemainedAppend(a, b, eos);
  }

  lemma {:induction false} EndedAppend(a: seq<Hyp>, b: seq<Hyp>, eos: int)
    ensures EndedOf(a + b, eos) == EndedOf(a, eos) + EndedOf(b, eos)
    decreases |b|
  {
    if b == [] {
      assert a + b == a;
    } else {
      var init := b[..|b| - 1];
      var last := b[|b| - 1];
      var tail := if Last(last) == eos then [last] else [];
      assert EndedOf(a + init, eos) == EndedOf(a, eos) + EndedOf(init, eos) by {
        EndedAppend(a, init, eos);
      }
      assert EndedOf(a + b, eos) == EndedOf(a + init, eos) + tail by {
        assert a + b == (a + init) + [last];
        SplitSnoc(a + init, last, eos);
      }
      assert EndedOf(b, eos) == EndedOf(init, eos) + tail by {
        assert b == init + [last];
        SplitSnoc(init, last, eos);
      }
      SnocAssoc(EndedOf(a + b, eos), EndedOf(a, eos), EndedOf(init, eos), EndedOf(b, eos), tail);
    }
  }

  lemma {:induction false} RemainedAppend(a: seq<Hyp>, b: seq<Hyp>, eos: int)
    ensures RemainedOf(a + b, eos) == RemainedOf(a, eos) + RemainedOf(b, eos)
    decreases |b|
  {
    if b == [] {
      assert a + b == a;
    } else {
      var init := b[..|b| - 1];
      var last := b[|b| - 1];
      var tail := if Last(last) != eos then [last] else [];
      assert RemainedOf(a + init, eos) == RemainedOf(a, eos) + RemainedOf(init, eos) by {
        RemainedAppend(a, init, eos);
      }
      assert RemainedOf(a + b, eos) == RemainedOf(a + init, eos) + tail by {
        assert a + b == (a + init) + [last];
        SplitSnoc(a + init, last, eos);
      }
      assert RemainedOf(b, eos) == RemainedOf(init, eos) + tail by {
        assert b == init + [last];
        SplitSnoc(init, last, eos);
      }
      SnocAssoc(RemainedOf(a + b, eos), RemainedOf(a, eos), RemainedOf(init, eos), RemainedOf(b, eos), tail);
    }
  }

  /** `whole == (x + y) + tail` and `y' == y + tail` give `whole == x + y'`. */
  lemma SnocAssoc<T>(whole: seq<T>, x: seq<T>, y: seq<T>, y': seq<T>, tail: seq<T>)
    requires whole == (x + y) + tail && y' == y + tail
    ensures whole == x + y'
  {
  }

  /** One more entry at the end goes to the side its last id selects. */
  lemma SplitSnoc(s: seq<Hyp>, h: Hyp, eos: int)
    ensures EndedOf(s + [h], eos) == if Last(h) == eos then EndedOf(s, eos) + [h] else EndedOf(s, eos)
    ensures RemainedOf(s + [h], eos) == if Last(h) == eos then RemainedOf(s, eos) else RemainedOf(s, eos) + [h]
  {
    assert (s + [h])[..|s|] == s;
  }

  /** A single entry ends exactly when its last id is `eos`. */
  lemma SplitOne(h: Hyp, eos: int)
    ensures EndedOf([h], eos) == if Last(h) == eos then [h] else []
    ensures RemainedOf([h], eos) == if Last(h) == eos then [] else [h]
  {
    assert [h][..0] == [];
  }

  // ---------------------------------------------------------------------
  // The whole search

  /** The ended list only grows: the search appends to it and never removes. */
  lemma {:induction false} SearchGrows(topk: TopK, beam: nat, eos: int, maxlen: int, i: int, hyps: seq<Hyp>, ended: seq<Hyp>)
    ensures ended <= Search(topk, beam, eos, maxlen, i, hyps, ended)
    decreases maxlen - i
  {
    if i < maxlen {
      var b := StepBeam(topk, beam, eos, maxlen, i, hyps);
      if RemainedOf(b, eos) != [] {
        SearchGrows(topk, beam, eos, maxlen, i + 1, RemainedOf(b, eos), ended + EndedOf(b, eos));
      }
    }
  }

  /** An ended hypothesis starts with `sos`, ends with `eos` and holds at most `maxlen + 2` ids. */
  predicate Completed(hs: seq<Hyp>, sos: int, eos: int, maxlen: int)
  {
    forall h :: h in hs ==> h.yseq[0] == sos && Last(h) == eos && 2 <= |h.yseq| <= maxlen + 2
  }

  /**
   * The beam of step `i < maxlen` holds hypotheses starting with `sos` of
   * at most `maxlen + 2` ids; before the last step, of exactly `i + 2` ids.
   */
  lemma StepBeamShaped(topk: TopK, beam: nat, sos: int, eos: int, maxlen: int, i: nat, hyps: seq<Hyp>)
    requires BeamWide(topk, beam) && i < maxlen
    requires ShapedAt(hyps, i + 1, sos)
    ensures forall h :: h in StepBeam(topk, beam, eos, maxlen, i, hyps) ==> h.yseq[0] == sos && 2 <= |h.yseq| <= maxlen + 2
    ensures i < maxlen - 1 ==> ShapedAt(StepBeam(topk, beam, eos, maxlen, i, hyps), i + 2, sos)
  {
    var kept := KeepBest(topk, beam, [], hyps);
    KeepBestShaped(topk, beam, hyps, i + 1, sos);
    var b := StepBeam(topk, beam, eos, maxlen, i, hyps);
    if i == maxlen - 1 {
      forall h | h in b ensures h.yseq[0] == sos && 2 <= |h.yseq| <= maxlen + 2 {
        var k :| 0 <= k < |b| && b[k] == h;
        assert kept[k] in kept;
        assert h.yseq[..|kept[k].yseq|] == kept[k].yseq;
        assert h.yseq[0] == h.yseq[..|kept[k].yseq|][0];
      }
    }
  }

  /**
   * One step keeps the search's invariants: the hypotheses it ends are
   * completed, and those it keeps active hold `i + 2` ids starting with `sos`.
   */
  lemma StepSplitShaped(topk: TopK, beam: nat, sos: int, eos: int, maxlen: int, i: nat, hyps: seq<Hyp>, ended: seq<Hyp>)
    requires BeamWide(topk, beam) && i < maxlen
    requires ShapedAt(hyps, i + 1, sos) && Completed(ended, sos, eos, maxlen)
    ensures Completed(ended + EndedOf(StepBeam(topk, beam, eos, maxlen, i, hyps), eos), sos, eos, maxlen)
    ensures ShapedAt(RemainedOf(StepBeam(topk, beam, eos, maxlen, i, hyps), eos), i + 2, sos)
  {
    var kept := KeepBest(topk, beam, [], hyps);
    var b := StepBeam(topk, beam, eos, maxlen, i, hyps);
    StepBeamShaped(topk, beam, sos, eos, maxlen, i, hyps);
    var e := EndedOf(b, eos);
    var remained := RemainedOf(b, eos);
    SplitMembers(b, eos);
    forall h | h in ended + e ensures h.yseq[0] == sos && Last(h) == eos && 2 <= |h.yseq| <= maxlen + 2 {
      if h in e {
        assert h in b;
      }
    }
    if i == maxlen - 1 {
      ForceEosEndsAll(kept, eos);
    } else {
      forall h | h in remained ensures |h.yseq| == i + 2 && h.yseq[0] == sos {
        assert h in b;
      }
    }
  }

  /** Every hypothesis the search ends is a completed one. */
  lemma {:induction false} SearchCompleted(topk: TopK, beam: nat, sos: int, eos: int, maxlen: int, i: nat, hyps: seq<Hyp>, ended: seq<Hyp>)
    requires BeamWide(topk, beam)
    requires ShapedAt(hyps, i + 1, sos) && Completed(ended, sos, eos, maxlen)
    ensures Completed(Search(topk, beam, eos, maxlen, i, hyps, ended), sos, eos, maxlen)
    decreases maxlen - i
  {
    if i < maxlen {
      var b := StepBeam(topk, beam, eos, maxlen, i, hyps);
      StepSplitShaped(topk, beam, sos, eos, maxlen, i, hyps, ended);
      var remained := RemainedOf(b, eos);
      if remained != [] {
        SearchCompleted(topk, beam, sos, eos, maxlen, i + 1, remained, ended + EndedOf(b, eos));
      }
    }
  }

  /**
   * A search that starts a step with an active hypothesis, within the cap and
   * with a non-empty beam, ends at least `beam` hypotheses: each step keeps
   * exactly `beam` entries, and the last step forces all of them to end.
   */
  lemma {:induction false} SearchYield(topk: TopK, beam: nat, eos: int, maxlen: int, i: int, hyps: seq<Hyp>, ended: seq<Hyp>)
    requires BeamWide(topk, beam) && i < maxlen && hyps != []
    ensures |Search(topk, beam, eos, maxlen, i, hyps, ended)| >= |ended| + beam
    decreases maxlen - i
  {
    var kept := KeepBest(topk, beam, [], hyps);
    KeepBestSpec(topk, beam, [], hyps);
    var b := StepBeam(topk, beam, eos, maxlen, i, hyps);
    assert |b| == |kept| == beam;
    var e := EndedOf(b, eos);
    var remained := RemainedOf(b, eos);
    PartitionSpec(b, eos);
    if remained == [] {
      assert Search(topk, beam, eos, maxlen, i, hyps, ended) == ended + e;
    } else {
      if i == maxlen - 1 {
        ForceEosEndsAll(kept, eos);
        assert false;
      }
      assert Search(topk, beam, eos, maxlen, i, hyps, ended) == Search(topk, beam, eos, maxlen, i + 1, remained, ended + e);
      SearchYield(topk, beam, eos, maxlen, i + 1, remained, ended + e);
    }
  }

  /** The n-best list is sorted, a prefix of the stably sorted ended list, of the promised length. */
  lemma NBestSpec(ended: seq<Hyp>, nbest: int)
    ensures SortedByScore(NBest(ended, nbest))
    ensures NBest(ended, nbest) <= SortByScore(ended)
    ensures multiset(NBest(ended, nbest)) <= multiset(ended)
    ensures nbest >= 0 ==> |NBest(ended, nbest)| == Min(|ended|, nbest)
    ensures nbest < 0 ==> |NBest(ended, nbest)| == if |ended| + nbest >= 0 then |ended| + nbest else 0
  {
    var s := SortByScore(ended);
    SortByScoreSpec(ended);
    var r := PyPrefix(s, Min(|ended|, nbest));
    assert r == NBest(ended, nbest);
    PrefixSorted(s, r);
    PrefixMultiset(s, r);
  }

  /**
   * What `recognize_beam` promises its caller: the results are sorted by
   * score, each starts with `sos`, ends with `eos` and holds at most
   * `maxlen + 2` ids; there are at most `nbest` of them, and at least
   * `min(nbest, beam)` whenever the search runs at least one step.
   */
  lemma RecognizeBeamSpecProperties(topk: TopK, sos: int, eos: int, beam: nat, nbest: int, maxlen: int)
    requires BeamWide(topk, beam)
    ensures SortedByScore(RecognizeBeamSpec(topk, sos, eos, beam, nbest, maxlen))
    ensures Completed(RecognizeBeamSpec(topk, sos, eos, beam, nbest, maxlen), sos, eos, maxlen)
    ensures nbest >= 0 ==> |RecognizeBeamSpec(topk, sos, eos, beam, nbest, maxlen)| <= nbest
    ensures nbest >= 0 && maxlen >= 1 ==> |RecognizeBeamSpec(topk, sos, eos, beam, nbest, maxlen)| >= Min(nbest, beam)
  {
    var ended := Search(topk, beam, eos, maxlen, 0, Initial(sos), []);
    SearchCompleted(topk, beam, sos, eos, maxlen, 0, Initial(sos), []);
    NBestSpec(ended, nbest);
    var r := NBest(ended, nbest);
    SubMultisetMembers(r, ended);
    if maxlen >= 1 {
      SearchYield(topk, beam, eos, maxlen, 0, Initial(sos), []);
    }
  }

  // ---------------------------------------------------------------------
  // The decode length cap

  /**
   * What the cap means for the caller: with `decode_max_len` 0 every
   * result holds at most `encoderLen + 2` ids, otherwise at most
   * `decode_max_len + 2`; a negative cap, or 0 with an empty encoder
   * output, runs no step and returns nothing; with `decode_max_len` 0 and
   * at least one frame there are at least `min(nbest, beam)` results.
   */
  lemma DecodeCap(topk: TopK, sos: int, eos: int, beam: nat, nbest: int, encoderLen: nat, decodeMaxLen: int)
    requires BeamWide(topk, beam)
    ensures decodeMaxLen == 0 ==>
      forall h :: h in RecognizeBeamSpec(topk, sos, eos, beam, nbest, DecodeMaxLen(encoderLen, decodeMaxLen)) ==>
        |h.yseq| <= encoderLen + 2
    ensures decodeMaxLen > 0 ==>
      forall h :: h in RecognizeBeamSpec(topk, sos, eos, beam, nbest, DecodeMaxLen(encoderLen, decodeMaxLen)) ==>
        |h.yseq| <= decodeMaxLen + 2
    ensures decodeMaxLen < 0 || (decodeMaxLen == 0 && encoderLen == 0) ==>
      RecognizeBeamSpec(topk, sos, eos, beam, nbest, DecodeMaxLen(encoderLen, decodeMaxLen)) == []
    ensures decodeMaxLen == 0 && encoderLen >= 1 && nbest >= 0 ==>
      |RecognizeBeamSpec(topk, sos, eos, beam, nbest, DecodeMaxLen(encoderLen, decodeMaxLen))| >= Min(nbest, beam)
  {
    var maxlen := DecodeMaxLen(encoderLen, decodeMaxLen);
    RecognizeBeamSpecProperties(topk, sos, eos, beam, nbest, maxlen);
    if maxlen <= 0 {
      assert Search(topk, beam, eos, maxlen, 0, Initial(sos), []) == [];
    }
  }

  // ---------------------------------------------------------------------
  // Beam width 1

  /**
   * Greedy decoding from `h` at step `i`: extend by the best candidate
   * until the extension ends with `eos`, or step `maxlen - 1` forces `eos`.
   * The result is the ended list: the one hypothesis reached, or nothing
   * when no step is left.
   */
  function Greedy(topk: TopK, eos: int, maxlen: int, i: int, h: Hyp): (r: seq<Hyp>)
    requires BeamWide(topk, 1)
    ensures |r| == if i < maxlen then 1 else 0
    ensures forall g :: g in r ==> Last(g) == eos
    decreases maxlen - i
  {
    if i >= maxlen then []
    else
      var c := Child(h, Scored(topk, h)[0]);
      if i == maxlen - 1 then [AppendEos(c, eos)]
      else if Last(c) == eos then [c]
      else Greedy(topk, eos, maxlen, i + 1, c)
  }

  /** With beam 1 a step keeps the one child of the best candidate. */
  lemma KeepBestOne(topk: TopK, h: Hyp)
    requires BeamWide(topk, 1)
    ensures KeepBest(topk, 1, [], [h]) == [Child(h, Scored(topk, h)[0])]
  {
    var cs := Scored(topk, h);
    var c := Child(h, cs[0]);
    var all := [] + Children(h, cs);
    assert all == [c];
    assert SortByScore(all) == Insert(c, []) == [c];
    assert PruneStep(topk, 1, [], h) == Take(SortByScore(all), 1) == [c];
    assert [h][1..] == [];
    assert KeepBest(topk, 1, [], [h]) == KeepBest(topk, 1, [c], []);
  }

  /** With beam 1 a step's beam is the one extension, forced to end on the last step. */
  lemma StepBeamOne(topk: TopK, eos: int, maxlen: int, i: int, h: Hyp)
    requires BeamWide(topk, 1)
    ensures StepBeam(topk, 1, eos, maxlen, i, [h]) ==
      var c := Child(h, Scored(topk, h)[0]);
      [if i == maxlen - 1 then AppendEos(c, eos) else c]
  {
    KeepBestOne(topk, h);
  }

  /** One step of a search with beam 1: it ends the extension or goes on from it. */
  lemma SearchOne(topk: TopK, eos: int, maxlen: int, i: int, h: Hyp, ended: seq<Hyp>)
    requires BeamWide(topk, 1) && i < maxlen
    ensures
      var c := Child(h, Scored(topk, h)[0]);
      var x := if i == maxlen - 1 then AppendEos(c, eos) else c;
      Search(topk, 1, eos, maxlen, i, [h], ended) ==
        if Last(x) == eos then ended + [x] else Search(topk, 1, eos, maxlen, i + 1, [c], ended)
  {
    var c := Child(h, Scored(topk, h)[0]);
    var x := if i == maxlen - 1 then AppendEos(c, eos) else c;
    StepBeamOne(topk, eos, maxlen, i, h);
    SearchSingle(topk, 1, eos, maxlen, i, [h], ended, x);
    if Last(x) != eos {
      assert i != maxlen - 1 && x == c;
    }
  }

  /** A step whose beam is the single entry `x` ends it or goes on from it alone. */
  lemma SearchSingle(topk: TopK, beam: nat, eos: int, maxlen: int, i: int, hyps: seq<Hyp>, ended: seq<Hyp>, x: Hyp)
    requires i < maxlen && StepBeam(topk, beam, eos, maxlen, i, hyps) == [x]
    ensures Search(topk, beam, eos, maxlen, i, hyps, ended) ==
      if Last(x) == eos then ended + [x] else Search(topk, beam, eos, maxlen, i + 1, [x], ended)
  {
    SearchUnfold(topk, beam, eos, maxlen, i, hyps, ended, [x]);
    SplitOne(x, eos);
    if Last(x) == eos {
      assert RemainedOf([x], eos) == [] && EndedOf([x], eos) == [x];
    } else {
      assert RemainedOf([x], eos) == [x] && EndedOf([x], eos) == [];
      assert ended + [] == ended;
    }
  }

  /** One step of the search, with the step's beam `b` named. */
  lemma SearchUnfold(topk: TopK, beam: nat, eos: int, maxlen: int, i: int, hyps: seq<Hyp>, ended: seq<Hyp>, b: seq<Hyp>)
    requires i < maxlen && b == StepBeam(topk, beam, eos, maxlen, i, hyps)
    ensures Search(topk, beam, eos, maxlen, i, hyps, ended) ==
      if RemainedOf(b, eos) == [] then ended + EndedOf(b, eos)
      else Search(topk, beam, eos, maxlen, i + 1, RemainedOf(b, eos), ended + EndedOf(b, eos))
  {
  }

  /** A search with beam 1 is greedy decoding. */
  lemma {:induction false} BeamOneIsGreedy(topk: TopK, eos: int, maxlen: int, i: int, h: Hyp, ended: seq<Hyp>)
    requires BeamWide(topk, 1)
    ensures Search(topk, 1, eos, maxlen, i, [h], ended) == ended + Greedy(topk, eos, maxlen, i, h)
    decreases maxlen - i
  {
    if i < maxlen {
      var c := Child(h, Scored(topk, h)[0]);
      var x := if i == maxlen - 1 then AppendEos(c, eos) else c;
      SearchOne(topk, eos, maxlen, i, h, ended);
      if Last(x) != eos {
        BeamOneIsGreedy(topk, eos, maxlen, i + 1, c, ended);
      }
    }
  }

  /**
   * `recognize_beam` with beam 1 returns the greedy hypothesis when
   * `nbest >= 1` and a step runs, and nothing when `nbest <= 0`.
   */
  lemma RecognizeBeamOne(topk: TopK, sos: int, eos: int, nbest: int, maxlen: int)
    requires BeamWide(topk, 1)
    ensures RecognizeBeamSpec(topk, sos, eos, 1, nbest, maxlen) ==
      if nbest >= 1 then Greedy(topk, eos, maxlen, 0, Hyp(0, [sos])) else []
  {
    var g := Greedy(topk, eos, maxlen, 0, Hyp(0, [sos]));
    assert Search(topk, 1, eos, maxlen, 0, Initial(sos), []) == g by {
      BeamOneIsGreedy(topk, eos, maxlen, 0, Hyp(0, [sos]), []);
      assert [] + g == g;
    }
    assert SortByScore(g) == g by {
      if g != [] {
        assert g == [g[0]];
      }
    }
    assert NBest(g, nbest) == PyPrefix(g, Min(|g|, nbest));
  }
}
