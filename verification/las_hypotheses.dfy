/**
 * Hypotheses of the Listen-Attend-Spell beam search and the list operations
 * the search applies to them: the stable descending sort by score that
 * Python's `sorted(..., key=score, reverse=True)` performs, and prefix slices.
 */
module LasHypotheses {

  /** A token sequence always holds at least the start-of-sentence id. */
  type TokenSeq = s: seq<int> | |s| >= 1 witness [0]

  /**
   * One beam entry: its accumulated log-probability (kept as an abstract
   * ordered value) and the ids emitted so far. The recurrent state and the
   * attention context the source carries with it are a function of `yseq`
   * and live in the scoring oracle.
   */
  datatype Hyp = Hyp(score: int, yseq: TokenSeq)

  /** One of the `beam` best (local score, token id) pairs of a step. */
  datatype Cand = Cand(score: int, id: int)

  /** The last emitted id, `yseq[-1]`. */
  function Last(h: Hyp): int
  {
    h.yseq[|h.yseq| - 1]
  }

  /** The successor of `p` that emits `c.id`. */
  function Child(p: Hyp, c: Cand): (h: Hyp)
    ensures |h.yseq| == |p.yseq| + 1 && h.yseq[..|p.yseq|] == p.yseq
    ensures Last(h) == c.id && h.score == p.score + c.score
  {
    Hyp(p.score + c.score, p.yseq + [c.id])
  }

  /** The successors of `p`, one per candidate, in candidate order. */
  function Children(p: Hyp, cs: seq<Cand>): (r: seq<Hyp>)
    ensures |r| == |cs|
    ensures forall j :: 0 <= j < |cs| ==> r[j] == Child(p, cs[j])
  {
    if cs == [] then []
    else Children(p, cs[..|cs| - 1]) + [Child(p, cs[|cs| - 1])]
  }

  /** Scores never increase along `s`. */
  predicate SortedByScore(s: seq<Hyp>)
  {
    forall i, j :: 0 <= i < j < |s| ==> s[i].score >= s[j].score
  }

  /** The entries of `s` whose score is `v`, in their order in `s`. */
  function Tied(s: seq<Hyp>, v: int): seq<Hyp>
  {
    if s == [] then []
    else (if s[0].score == v then [s[0]] else []) + Tied(s[1..], v)
  }

  /**
   * Places `x` in front of the first entry of `s` whose score is not above
   * `x.score`: `x` precedes every entry it ties with.
   */
  function Insert(x: Hyp, s: seq<Hyp>): seq<Hyp>
  {
    if s == [] || x.score >= s[0].score then [x] + s
    else [s[0]] + Insert(x, s[1..])
  }

  /** `sorted(s, key=lambda x: x['score'], reverse=True)`, a stable sort. */
  function SortByScore(s: seq<Hyp>): seq<Hyp>
  {
    if s == [] then [] else Insert(s[0], SortByScore(s[1..]))
  }

  /** `s[:n]` for a non-negative `n`. */
  function Take<T>(s: seq<T>, n: nat): (r: seq<T>)
    ensures |r| == if n <= |s| then n else |s|
    ensures r <= s
  {
    if n <= |s| then s[..n] else s
  }

  /** `s[:n]` for any integer `n`: a negative `n` drops `-n` entries from the end. */
  function PyPrefix<T>(s: seq<T>, n: int): (r: seq<T>)
    ensures r <= s
    ensures n >= 0 ==> |r| == if n <= |s| then n else |s|
    ensures n < 0 ==> |r| == if |s| + n >= 0 then |s| + n else 0
  {
    if n >= 0 then Take(s, n)
    else if |s| + n >= 0 then s[..|s| + n]
    else []
  }

  lemma {:induction false} InsertMultiset(x: Hyp, s: seq<Hyp>)
    ensures multiset(Insert(x, s)) == multiset(s) + multiset{x}
  {
    if !(s == [] || x.score >= s[0].score) {
      InsertMultiset(x, s[1..]);
      assert s == [s[0]] + s[1..];
    }
  }

  lemma {:induction false} InsertSorted(x: Hyp, s: seq<Hyp>)
    requires SortedByScore(s)
    ensures SortedByScore(Insert(x, s))
  {
    if !(s == [] || x.score >= s[0].score) {
      var rest := Insert(x, s[1..]);
      InsertSorted(x, s[1..]);
      InsertMultiset(x, s[1..]);
      var r := [s[0]] + rest;
      assert Insert(x, s) == r;
      forall j | 0 < j < |r| ensures r[0].score >= r[j].score {
        assert r[j] == rest[j - 1];
        assert r[j] in multiset(s[1..]) + multiset{x};
        if r[j] in s[1..] {
          var k :| 0 <= k < |s[1..]| && s[1..][k] == r[j];
          assert s[k + 1] == r[j];
        }
      }
    }
  }

  lemma {:induction false} InsertTied(x: Hyp, s: seq<Hyp>, v: int)
    requires SortedByScore(s)
    ensures Tied(Insert(x, s), v) == (if x.score == v then [x] else []) + Tied(s, v)
  {
    if s == [] || x.score >= s[0].score {
      assert ([x] + s)[1..] == s;
    } else {
      var rest := Insert(x, s[1..]);
      InsertTied(x, s[1..], v);
      assert ([s[0]] + rest)[1..] == rest;
      calc {
        Tied(Insert(x, s), v);
        (if s[0].score == v then [s[0]] else []) + Tied(rest, v);
        (if s[0].score == v then [s[0]] else []) + ((if x.score == v then [x] else []) + Tied(s[1..], v));
        { assert x.score == v ==> s[0].score != v; }
        (if x.score == v then [x] else []) + ((if s[0].score == v then [s[0]] else []) + Tied(s[1..], v));
      }
    }
  }

  /**
   * The sort returns the same entries, in non-increasing score order, and
   * keeps the original order among entries of equal score (stability).
   */
  lemma {:induction false} SortByScoreSpec(s: seq<Hyp>)
    ensures SortedByScore(SortByScore(s))
    ensures multiset(SortByScore(s)) == multiset(s)
    ensures |SortByScore(s)| == |s|
    ensures forall v :: Tied(SortByScore(s), v) == Tied(s, v)
  {
    if s != [] {
      var rest := SortByScore(s[1..]);
      var r := SortByScore(s);
      SortByScoreSpec(s[1..]);
      assert r == Insert(s[0], rest);
      InsertSorted(s[0], rest);
      InsertMultiset(s[0], rest);
      forall v ensures Tied(r, v) == Tied(s, v) {
        InsertTied(s[0], rest, v);
        assert Tied(s, v) == (if s[0].score == v then [s[0]] else []) + Tied(s[1..], v);
      }
      assert s == [s[0]] + s[1..];
      assert multiset(s) == multiset{s[0]} + multiset(s[1..]);
      assert |r| == |multiset(r)|;
    }
  }

  /** A prefix of a sorted list is sorted. */
  lemma PrefixSorted(s: seq<Hyp>, r: seq<Hyp>)
    requires SortedByScore(s) && r <= s
    ensures SortedByScore(r)
  {
  }

  /** A prefix holds a sub-multiset of the list's entries. */
  lemma PrefixMultiset<T>(s: seq<T>, r: seq<T>)
    requires r <= s
    ensures multiset(r) <= multiset(s)
  {
    assert s == r + s[|r|..];
  }

  // ---------------------------------------------------------------------
  // Sorting in parts

  /**
   * Merges two lists, taking the entry of `a` first on ties. The stable
   * sort of `a + b` is the merge of the stable sorts of `a` and of `b`.
   */
  function Merge(a: seq<Hyp>, b: seq<Hyp>): seq<Hyp>
    decreases |a| + |b|
  {
    if a == [] then b
    else if b == [] then a
    else if a[0].score >= b[0].score then [a[0]] + Merge(a[1..], b)
    else [b[0]] + Merge(a, b[1..])
  }

  lemma {:induction false} InsertMerge(x: Hyp, a: seq<Hyp>, b: seq<Hyp>)
    ensures Insert(x, Merge(a, b)) == Merge(Insert(x, a), b)
    decreases |a| + |b|
  {
    if a == [] {
      if b != [] && x.score < b[0].score {
        InsertMerge(x, a, b[1..]);
        assert Merge([x], b) == [b[0]] + Merge([x], b[1..]);
      }
    } else if b == [] {
    } else if a[0].score >= b[0].score {
      if x.score < a[0].score {
        InsertMerge(x, a[1..], b);
        assert Insert(x, a) == [a[0]] + Insert(x, a[1..]);
        assert Merge(Insert(x, a), b) == [a[0]] + Merge(Insert(x, a[1..]), b);
      } else {
        assert Merge([x] + a, b) == [x] + Merge(a, b);
      }
    } else {
      if x.score < b[0].score {
        InsertMerge(x, a, b[1..]);
        var ia := Insert(x, a);
        assert ia[0] == x || ia[0] == a[0];
        assert Merge(ia, b) == [b[0]] + Merge(ia, b[1..]);
      } else {
        assert Merge([x] + a, b) == [x] + Merge(a, b);
      }
    }
  }

  /** The stable sort of `a + b` merges the sorted parts, `a`'s entries first on ties. */
  lemma {:induction false} SortAppend(a: seq<Hyp>, b: seq<Hyp>)
    ensures SortByScore(a + b) == Merge(SortByScore(a), SortByScore(b))
  {
    if a == [] {
      assert a + b == b;
    } else {
      assert (a + b)[1..] == a[1..] + b;
      SortAppend(a[1..], b);
      InsertMerge(a[0], SortByScore(a[1..]), SortByScore(b));
    }
  }

  /** Sorting a sorted list changes nothing. */
  lemma {:induction false} SortSorted(s: seq<Hyp>)
    requires SortedByScore(s)
    ensures SortByScore(s) == s
  {
    if s != [] {
      SortSorted(s[1..]);
      assert s == [s[0]] + s[1..];
    }
  }

  /** The first `n` entries of a merge only draw on the first `n` entries of `a`. */
  lemma {:induction false} TakeMerge(a: seq<Hyp>, b: seq<Hyp>, n: nat, m: nat)
    requires n <= m
    ensures Take(Merge(a, b), n) == Take(Merge(Take(a, m), b), n)
    decreases n
  {
    if n > 0 && a != [] && b != [] {
      var ta := Take(a, m);
      assert ta[0] == a[0] && ta[1..] == Take(a[1..], m - 1);
      var y, rest, rest' := if a[0].score >= b[0].score then a[0] else b[0], [], [];
      if a[0].score >= b[0].score {
        TakeMerge(a[1..], b, n - 1, m - 1);
        rest, rest' := Merge(a[1..], b), Merge(ta[1..], b);
      } else {
        TakeMerge(a, b[1..], n - 1, m);
        rest, rest' := Merge(a, b[1..]), Merge(ta, b[1..]);
      }
      assert Merge(a, b) == [y] + rest && Merge(ta, b) == [y] + rest';
      assert Take(rest, n - 1) == Take(rest', n - 1);
      TakeCons(y, rest, n);
      TakeCons(y, rest', n);
    }
  }

  lemma TakeCons<T>(y: T, s: seq<T>, n: nat)
    requires n >= 1
    ensures Take([y] + s, n) == [y] + Take(s, n - 1)
  {
  }

  /**
   * Cutting a stable sort to `n` entries, adding `c` and sorting and
   * cutting again gives the `n` first entries of the stable sort of
   * everything: the entries cut early could never have come back.
   */
  lemma TakeSortAppend(x: seq<Hyp>, c: seq<Hyp>, n: nat)
    ensures Take(SortByScore(Take(SortByScore(x), n) + c), n) == Take(SortByScore(x + c), n)
  {
    var sx := SortByScore(x);
    var kept := Take(sx, n);
    SortByScoreSpec(x);
    PrefixSorted(sx, kept);
    SortSorted(kept);
    SortAppend(kept, c);
    SortAppend(x, c);
    TakeMerge(sx, SortByScore(c), n, n);
  }

  /**
   * The first `n` entries of the stable sort are `n` best entries: they
   * come from `s`, and no entry left out scores above an entry kept.
   */
  lemma TakeSortBest(s: seq<Hyp>, n: nat)
    ensures multiset(Take(SortByScore(s), n)) <= multiset(s)
    ensures forall h, g :: h in Take(SortByScore(s), n) && g in multiset(s) - multiset(Take(SortByScore(s), n)) ==>
      g.score <= h.score
  {
    var sorted := SortByScore(s);
    var r := Take(sorted, n);
    var rest := sorted[|r|..];
    SortByScoreSpec(s);
    assert sorted == r + rest;
    assert multiset(sorted) == multiset(r) + multiset(rest);
    assert multiset(s) - multiset(r) == multiset(rest);
    PrefixAbove(sorted, |r|);
  }

  /** In a sorted list, every entry before position `k` scores at least as high as every entry from `k` on. */
  lemma PrefixAbove(sorted: seq<Hyp>, k: nat)
    requires SortedByScore(sorted) && k <= |sorted|
    ensures forall h, g :: h in sorted[..k] && g in multiset(sorted[k..]) ==> g.score <= h.score
  {
    forall h, g | h in sorted[..k] && g in multiset(sorted[k..]) ensures g.score <= h.score {
      var i :| 0 <= i < k && sorted[..k][i] == h;
      assert g in sorted[k..];
      var j :| 0 <= j < |sorted| - k && sorted[k..][j] == g;
      assert sorted[i] == h && sorted[k + j] == g;
    }
  }
}
