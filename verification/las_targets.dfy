/**
 * Teacher-forcing target preparation of the LAS decoder (`Decoder.forward`,
 * before the network runs): drop the ignore-id padding of each target,
 * build the decoder input `[sos] + y` and the decoder output `y + [eos]`,
 * and pad both batches to a common width.
 */
module LasTargets {
  import opened Wrappers

  /**
   * The ignore id of the utterance padding and of the loss. Its definition
   * (the `utils` module) is not part of this model; the comment on the
   * padding call says it is -1.
   */
  const IgnoreId: int := -1

  /**
   * `y[y != IGNORE_ID]`: the target with every ignore id removed, the other
   * ids kept with their multiplicity (`StripIgnoreSpec`) and in order
   * (`StripIgnoreAppend`); a target without ignore ids is returned as it is.
   */
  function StripIgnore(y: seq<int>): (r: seq<int>)
    ensures |r| <= |y|
    ensures IgnoreId !in r
    ensures IgnoreId !in y ==> r == y
  {
    if y == [] then []
    else if y[0] == IgnoreId then StripIgnore(y[1..])
    else [y[0]] + StripIgnore(y[1..])
  }

  /** The strip keeps exactly the ids other than the ignore id, each as often as in `y`. */
  lemma {:induction false} StripIgnoreSpec(y: seq<int>)
    ensures forall x :: x in StripIgnore(y) <==> x in y && x != IgnoreId
    ensures multiset(StripIgnore(y)) == multiset(y)[IgnoreId := 0]
  {
    if y != [] {
      StripIgnoreSpec(y[1..]);
      assert y == [y[0]] + y[1..];
      assert multiset(y) == multiset{y[0]} + multiset(y[1..]);
    }
  }

  /** The strip works id by id: stripping a concatenation concatenates the strips. */
  lemma {:induction false} StripIgnoreAppend(a: seq<int>, b: seq<int>)
    ensures StripIgnore(a + b) == StripIgnore(a) + StripIgnore(b)
  {
    if a == [] {
      assert a + b == b;
    } else {
      assert (a + b)[0] == a[0] && (a + b)[1..] == a[1..] + b;
      StripIgnoreAppend(a[1..], b);
      if a[0] != IgnoreId {
        var x, y := StripIgnore(a[1..]), StripIgnore(b);
        assert [a[0]] + (x + y) == ([a[0]] + x) + y;
      }
    }
  }

  /** A run of ignore ids strips to nothing. */
  lemma {:induction false} StripAllIgnored(n: nat)
    ensures StripIgnore(seq(n, _ => IgnoreId)) == []
  {
    if n > 0 {
      var s := seq(n, _ => IgnoreId);
      StripAllIgnored(n - 1);
      assert s[1..] == seq(n - 1, _ => IgnoreId);
    }
  }

  /** The width of the widest row (0 for an empty batch). */
  function MaxRowLen(xs: seq<seq<int>>): (m: nat)
    ensures forall k :: 0 <= k < |xs| ==> |xs[k]| <= m
    ensures xs != [] ==> exists k :: 0 <= k < |xs| && |xs[k]| == m
  {
    if xs == [] then 0
    else
      var rest := MaxRowLen(xs[1..]);
      if |xs[0]| >= rest then |xs[0]| else rest
  }

  /** `x` extended with `fill` up to width `n`. */
  function PadTo(x: seq<int>, n: nat, fill: int): (r: seq<int>)
    requires |x| <= n
    ensures |r| == n && r[..|x|] == x
    ensures forall t :: |x| <= t < n ==> r[t] == fill
  {
    x + seq(n - |x|, _ => fill)
  }

  /** `pad_list(xs, fill)`: every row padded with `fill` to the widest row's width. */
  function PadList(xs: seq<seq<int>>, fill: int): (r: seq<seq<int>>)
    ensures |r| == |xs|
    ensures forall k :: 0 <= k < |xs| ==> |r[k]| == MaxRowLen(xs) && r[k][..|xs[k]|] == xs[k]
    ensures forall k, t :: 0 <= k < |xs| && |xs[k]| <= t < MaxRowLen(xs) ==> r[k][t] == fill
  {
    seq(|xs|, k requires 0 <= k < |xs| => PadTo(xs[k], MaxRowLen(xs), fill))
  }

  /** The decoder input rows: `cat([sos, y])` for each stripped target. */
  function Inputs(ys: seq<seq<int>>, sos: int): (r: seq<seq<int>>)
  {
    seq(|ys|, k requires 0 <= k < |ys| => [sos] + ys[k])
  }

  /** The decoder output rows: `cat([y, eos])` for each stripped target. */
  function Outputs(ys: seq<seq<int>>, eos: int): (r: seq<seq<int>>)
  {
    seq(|ys|, k requires 0 <= k < |ys| => ys[k] + [eos])
  }

  /** Batches whose rows have equal lengths pairwise have equal widths. */
  lemma {:induction false} SameRowLengths(a: seq<seq<int>>, b: seq<seq<int>>)
    requires |a| == |b|
    requires forall k :: 0 <= k < |a| ==> |a[k]| == |b[k]|
    ensures MaxRowLen(a) == MaxRowLen(b)
  {
    if a != [] {
      SameRowLengths(a[1..], b[1..]);
    }
  }

  /** The padded decoder input and output of a batch. */
  datatype Targets = Targets(ysInPad: seq<seq<int>>, ysOutPad: seq<seq<int>>)

  /** `ys = [y[y != IGNORE_ID] for y in padded_input]`. */
  function Stripped(padded: seq<seq<int>>): (ys: seq<seq<int>>)
    ensures |ys| == |padded|
    ensures forall k :: 0 <= k < |padded| ==> ys[k] == StripIgnore(padded[k])
  {
    seq(|padded|, k requires 0 <= k < |padded| => StripIgnore(padded[k]))
  }

  /**
   * Stripping undoes the padding: targets without ignore ids, padded with
   * the ignore id to a common width (as the padded input to `forward` is
   * built), strip back to themselves.
   */
  lemma StripPadList(ys: seq<seq<int>>)
    requires forall k :: 0 <= k < |ys| ==> IgnoreId !in ys[k]
    ensures Stripped(PadList(ys, IgnoreId)) == ys
  {
    var w := MaxRowLen(ys);
    var padded := PadList(ys, IgnoreId);
    forall k | 0 <= k < |ys| ensures StripIgnore(padded[k]) == ys[k] {
      assert padded[k] == ys[k] + seq(w - |ys[k]|, _ => IgnoreId);
      StripIgnoreAppend(ys[k], seq(w - |ys[k]|, _ => IgnoreId));
      StripAllIgnored(w - |ys[k]|);
      assert ys[k] + [] == ys[k];
    }
  }

  /**
   * Lines 60-71 of `forward`. An empty batch has no `ys[0]` (an IndexError
   * in the source), which is `None` here.
   */
  function PrepareTargets(padded: seq<seq<int>>, sos: int, eos: int): (r: Option<Targets>)
    ensures r.None? <==> padded == []
  {
    if padded == [] then None
    else
      var ys := Stripped(padded);
      Some(Targets(PadList(Inputs(ys, sos), eos), PadList(Outputs(ys, eos), IgnoreId)))
  }

  /**
   * The padded input and output batches have the same shape, as the
   * assertion of line 71 requires: one row per utterance, each one wider
   * than the longest stripped target. Each input row starts with `sos`, is
   * the output row shifted right by one over the target, and the output row
   * holds `eos` right after the target; with `eos` distinct from the ignore
   * id, exactly the positions after that `eos` are ignored by the loss.
   */
  lemma PrepareTargetsSpec(padded: seq<seq<int>>, sos: int, eos: int)
    requires padded != []
    ensures
      var r := PrepareTargets(padded, sos, eos).value;
      var ys := Stripped(padded);
      && |r.ysInPad| == |r.ysOutPad| == |padded|
      && (forall k :: 0 <= k < |padded| ==>
            |r.ysInPad[k]| == |r.ysOutPad[k]| == MaxRowLen(ys) + 1)
      && (forall k :: 0 <= k < |padded| ==>
            r.ysInPad[k][0] == sos && r.ysOutPad[k][|ys[k]|] == eos)
      && (forall k, t :: 0 <= k < |padded| && 0 <= t < |ys[k]| ==>
            r.ysInPad[k][t + 1] == r.ysOutPad[k][t] == ys[k][t])
      && (forall k, t :: 0 <= k < |padded| && 0 <= t < |r.ysOutPad[k]| && eos != IgnoreId ==>
            (r.ysOutPad[k][t] == IgnoreId <==> t > |ys[k]|))
  {
    var ys := Stripped(padded);
    assert PrepareTargets(padded, sos, eos).value == Targets(PadList(Inputs(ys, sos), eos), PadList(Outputs(ys, eos), IgnoreId));
    PaddedBatch(ys, sos, eos);
  }

  /** `PrepareTargetsSpec` for the stripped targets `ys`. */
  lemma PaddedBatch(ys: seq<seq<int>>, sos: int, eos: int)
    requires ys != [] && forall k :: 0 <= k < |ys| ==> IgnoreId !in ys[k]
    ensures
      var i := PadList(Inputs(ys, sos), eos);
      var o := PadList(Outputs(ys, eos), IgnoreId);
      && |i| == |o| == |ys|
      && (forall k :: 0 <= k < |ys| ==> |i[k]| == |o[k]| == MaxRowLen(ys) + 1)
      && (forall k :: 0 <= k < |ys| ==> i[k][0] == sos && o[k][|ys[k]|] == eos)
      && (forall k, t :: 0 <= k < |ys| && 0 <= t < |ys[k]| ==> i[k][t + 1] == o[k][t] == ys[k][t])
      && (forall k, t :: 0 <= k < |ys| && 0 <= t < |o[k]| && eos != IgnoreId ==>
            (o[k][t] == IgnoreId <==> t > |ys[k]|))
  {
    PaddedWidth(ys, sos, eos);
    var i := PadList(Inputs(ys, sos), eos);
    var o := PadList(Outputs(ys, eos), IgnoreId);
    forall k | 0 <= k < |ys|
      ensures i[k][0] == sos && o[k][|ys[k]|] == eos
      ensures forall t :: 0 <= t < |ys[k]| ==> i[k][t + 1] == o[k][t] == ys[k][t]
      ensures forall t :: 0 <= t < |o[k]| && eos != IgnoreId ==> (o[k][t] == IgnoreId <==> t > |ys[k]|)
    {
      PaddedBatchRow(ys, k, sos, eos);
    }
  }

  /** Row `k` of the two padded batches. */
  lemma PaddedBatchRow(ys: seq<seq<int>>, k: nat, sos: int, eos: int)
    requires k < |ys| && IgnoreId !in ys[k]
    ensures
      var i := PadList(Inputs(ys, sos), eos)[k];
      var o := PadList(Outputs(ys, eos), IgnoreId)[k];
      && i[0] == sos && o[|ys[k]|] == eos
      && (forall t :: 0 <= t < |ys[k]| ==> i[t + 1] == o[t] == ys[k][t])
      && (forall t :: 0 <= t < |o| && eos != IgnoreId ==> (o[t] == IgnoreId <==> t > |ys[k]|))
  {
    var ins := Inputs(ys, sos);
    var outs := Outputs(ys, eos);
    var w := MaxRowLen(ins);
    assert ins[k] == [sos] + ys[k] && outs[k] == ys[k] + [eos];
    assert |ins[k]| <= w;
    SameRowLengths(ins, outs);
    PaddedRow(ys[k], w, sos, eos);
  }

  /** Both batches of a non-empty batch are one wider than its longest target. */
  lemma PaddedWidth(ys: seq<seq<int>>, sos: int, eos: int)
    requires ys != []
    ensures MaxRowLen(Inputs(ys, sos)) == MaxRowLen(Outputs(ys, eos)) == MaxRowLen(ys) + 1
  {
    var ins := Inputs(ys, sos);
    var outs := Outputs(ys, eos);
    OneWider(ins, ys);
    OneWider(outs, ys);
  }

  /** A batch whose rows are each one longer than those of `b` is one wider. */
  lemma {:induction false} OneWider(a: seq<seq<int>>, b: seq<seq<int>>)
    requires |a| == |b| && b != []
    requires forall k :: 0 <= k < |a| ==> |a[k]| == |b[k]| + 1
    ensures MaxRowLen(a) == MaxRowLen(b) + 1
  {
    if |b| > 1 {
      OneWider(a[1..], b[1..]);
    }
  }

  /** One row of the two padded batches, padded to width `w`. */
  lemma PaddedRow(y: seq<int>, w: nat, sos: int, eos: int)
    requires |y| + 1 <= w && IgnoreId !in y
    ensures
      var i := PadTo([sos] + y, w, eos);
      var o := PadTo(y + [eos], w, IgnoreId);
      && i[0] == sos && o[|y|] == eos
      && (forall t :: 0 <= t < |y| ==> i[t + 1] == o[t] == y[t])
      && (forall t :: 0 <= t < w && eos != IgnoreId ==> (o[t] == IgnoreId <==> t > |y|))
  {
    var i := PadTo([sos] + y, w, eos);
    var o := PadTo(y + [eos], w, IgnoreId);
    assert i[..|y| + 1] == [sos] + y;
    assert o[..|y| + 1] == y + [eos];
    forall t | 0 <= t < |y| ensures i[t + 1] == o[t] == y[t] {
      assert i[t + 1] == i[..|y| + 1][t + 1];
      assert o[t] == o[..|y| + 1][t];
    }
    assert i[0] == i[..|y| + 1][0];
    assert o[|y|] == o[..|y| + 1][|y|];
    forall t | 0 <= t < w && eos != IgnoreId ensures o[t] == IgnoreId <==> t > |y| {
      if t < |y| {
        assert o[t] == y[t] && y[t] in y;
      }
    }
  }
}
