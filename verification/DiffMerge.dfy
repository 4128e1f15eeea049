/** A left-to-right merge of hunks, the reference the in-place splicing refines. */
module DiffMerge {
  import opened Wrappers
  import opened UnifiedDiff

  /** The hunks are ordered, disjoint, and within lines `pos` to `n` of the original. */
  ghost predicate InOrder(hunks: seq<Hunk>, pos: int, n: int) {
    if hunks == [] then pos <= n else
      pos <= hunks[0].start && InOrder(hunks[1..], hunks[0].End(), n)
  }

  lemma {:induction false} InOrderBounds(hunks: seq<Hunk>, pos: int, n: int)
    requires InOrder(hunks, pos, n)
    ensures pos <= n
    ensures hunks != [] ==> hunks[0].End() <= n
  {
    if hunks != [] {
      InOrderBounds(hunks[1..], hunks[0].End(), n);
    }
  }

  /** Copy the original from line `pos` on, putting each hunk's lines in place of its range. */
  ghost function Merge(original: seq<string>, hunks: seq<Hunk>, pos: nat): seq<string>
    requires InOrder(hunks, pos, |original|)
  {
    InOrderBounds(hunks, pos, |original|);
    if hunks == [] then original[pos..] else
      var h := hunks[0];
      original[pos..h.start] + h.lines + Merge(original, hunks[1..], h.End())
  }

  ghost function TotalGrowth(hunks: seq<Hunk>): int {
    if hunks == [] then 0 else hunks[0].Growth() + TotalGrowth(hunks[1..])
  }

  lemma {:induction false} InOrderSnoc(hunks: seq<Hunk>, h: Hunk, pos: int, n: int)
    requires InOrder(hunks + [h], pos, n)
    ensures pos <= h.start && h.End() <= n && InOrder(hunks, pos, h.start)
  {
    var all := hunks + [h];
    InOrderBounds(all, pos, n);
    if hunks == [] {
      assert all == [h];
    } else {
      assert all[1..] == hunks[1..] + [h];
      InOrderSnoc(hunks[1..], h, hunks[0].End(), n);
    }
  }

  lemma {:induction false} InOrderWiden(hunks: seq<Hunk>, pos: int, n: int, n': int)
    requires InOrder(hunks, pos, n) && n <= n'
    ensures InOrder(hunks, pos, n')
  {
    if hunks != [] {
      InOrderWiden(hunks[1..], hunks[0].End(), n, n');
    }
  }

  lemma DropFromFirst<T>(a: seq<T>, b: seq<T>, p: nat)
    requires p <= |a|
    ensures (a + b)[p..] == a[p..] + b
  {
  }

  ghost function SplicedAt(original: seq<string>, h: Hunk): seq<string>
    requires 0 <= h.start && h.End() <= |original|
  {
    original[..h.start] + (h.lines + original[h.End()..])
  }

  lemma SliceBeforeSplice(original: seq<string>, h: Hunk, p: nat, q: nat)
    requires p <= q <= h.start && h.End() <= |original|
    ensures SplicedAt(original, h)[p..q] == original[p..q]
  {
    assert original[..h.start][p..q] == original[p..q];
    SliceOfFirst(original[..h.start], h.lines + original[h.End()..], p, q);
  }

  lemma SliceOfFirst<T>(a: seq<T>, b: seq<T>, p: nat, q: nat)
    requires p <= q <= |a|
    ensures (a + b)[p..q] == a[p..q]
  {
  }

  lemma MergeLast(original: seq<string>, h: Hunk, pos: nat)
    requires pos <= h.start && h.End() <= |original|
    ensures InOrder([h], pos, |original|) && InOrder([], pos, |SplicedAt(original, h)|)
    ensures Merge(SplicedAt(original, h), [], pos) == Merge(original, [h], pos)
  {
    assert [h][1..] == [];
    DropFromFirst(original[..h.start], h.lines + original[h.End()..], pos);
    assert original[..h.start][pos..] == original[pos..h.start];
    assert original[pos..h.start] + (h.lines + original[h.End()..])
      == original[pos..h.start] + h.lines + original[h.End()..];
  }

  /** Splicing the last hunk into the list first leaves a smaller merge to do. */
  lemma {:induction false} MergeSnoc(original: seq<string>, hunks: seq<Hunk>, h: Hunk, pos: nat)
    requires InOrder(hunks + [h], pos, |original|)
    ensures 0 <= h.start && h.End() <= |original|
    ensures InOrder(hunks, pos, |SplicedAt(original, h)|)
    ensures Merge(SplicedAt(original, h), hunks, pos) == Merge(original, hunks + [h], pos)
  {
    InOrderSnoc(hunks, h, pos, |original|);
    var all := hunks + [h];
    InOrderWiden(hunks, pos, h.start, |SplicedAt(original, h)|);
    if hunks == [] {
      assert all == [h];
      MergeLast(original, h, pos);
    } else {
      assert all[1..] == hunks[1..] + [h];
      MergeSnoc(original, hunks[1..], h, hunks[0].End());
      InOrderBounds(hunks, pos, h.start);
      SliceBeforeSplice(original, h, pos, hunks[0].start);
    }
  }

  /** Splicing last-to-first into the changing list is the left-to-right merge over the
      untouched original, and the range check never fires. */
  lemma {:induction false} SpliceBackIsMerge(original: seq<string>, hunks: seq<Hunk>)
    requires InOrder(hunks, 0, |original|)
    ensures SpliceBack(original, hunks) == Ok(Merge(original, hunks, 0))
    decreases |hunks|
  {
    if hunks == [] {
      assert original[0..] == original;
    } else {
      var init, h := hunks[..|hunks| - 1], hunks[|hunks| - 1];
      assert hunks == init + [h];
      MergeSnoc(original, init, h, 0);
      InOrderSnoc(init, h, 0, |original|);
      var spliced := SplicedAt(original, h);
      assert Splice(original, h) == Ok(spliced);
      SpliceBackIsMerge(spliced, init);
    }
  }

  lemma {:induction false} MergeLength(original: seq<string>, hunks: seq<Hunk>, pos: nat)
    requires InOrder(hunks, pos, |original|)
    ensures |Merge(original, hunks, pos)| == |original| - pos + TotalGrowth(hunks)
  {
    InOrderBounds(hunks, pos, |original|);
    if hunks != [] {
      MergeLength(original, hunks[1..], hunks[0].End());
    }
  }

  /** Line `i` is in no hunk's old range. */
  ghost predicate Outside(hunks: seq<Hunk>, i: int) {
    forall k :: 0 <= k < |hunks| ==> i < hunks[k].start || hunks[k].End() <= i
  }

  /** Growth of the hunks that end at or before line `i`. */
  ghost function GrowthBefore(hunks: seq<Hunk>, i: int): int {
    if hunks == [] then 0 else
      (if hunks[0].End() <= i then hunks[0].Growth() else 0) + GrowthBefore(hunks[1..], i)
  }

  lemma {:induction false} NoGrowthBefore(hunks: seq<Hunk>, pos: int, n: int, i: int)
    requires InOrder(hunks, pos, n) && i < pos
    ensures GrowthBefore(hunks, i) == 0
  {
    if hunks != [] {
      NoGrowthBefore(hunks[1..], hunks[0].End(), n, i);
    }
  }

  lemma OutsideLater(hunks: seq<Hunk>, i: int)
    requires hunks != [] && Outside(hunks, i)
    ensures Outside(hunks[1..], i)
  {
    assert forall k :: 0 <= k < |hunks[1..]| ==> hunks[1..][k] == hunks[k + 1];
  }

  lemma OutsideFirst(hunks: seq<Hunk>, i: int)
    requires hunks != [] && Outside(hunks, i)
    ensures i < hunks[0].start || hunks[0].End() <= i
  {
  }

  /** A line outside every hunk lands at its old index plus the growth of the hunks before it. */
  lemma {:induction false} OutsideLineLands(original: seq<string>, hunks: seq<Hunk>, pos: nat, i: nat)
    requires InOrder(hunks, pos, |original|)
    requires pos <= i < |original| && Outside(hunks, i)
    ensures var at := i - pos + GrowthBefore(hunks, i);
      0 <= at < |Merge(original, hunks, pos)| && Merge(original, hunks, pos)[at] == original[i]
  {
    InOrderBounds(hunks, pos, |original|);
    if hunks != [] {
      var h := hunks[0];
      InOrderBounds(hunks[1..], h.End(), |original|);
      var head, rest := original[pos..h.start] + h.lines, Merge(original, hunks[1..], h.End());
      assert Merge(original, hunks, pos) == head + rest;
      if h.End() <= i {
        assert Outside(hunks[1..], i) by {
          OutsideLater(hunks, i);
        }
        OutsideLineLands(original, hunks[1..], h.End(), i);
        var at := i - h.End() + GrowthBefore(hunks[1..], i);
        assert (head + rest)[|head| + at] == rest[at];
      } else {
        assert i < h.start by {
          hide *;
          OutsideFirst(hunks, i);
        }
        NoGrowthBefore(hunks[1..], h.End(), |original|, i);
        assert (head + rest)[i - pos] == head[i - pos] == original[pos..h.start][i - pos];
      }
    }
  }

  /** Line `j` of hunk `k` lands at the hunk's start plus the growth of the earlier hunks plus `j`. */
  lemma {:induction false} HunkLineLands(original: seq<string>, hunks: seq<Hunk>, pos: nat, k: nat, j: nat)
    requires InOrder(hunks, pos, |original|)
    requires k < |hunks| && j < |hunks[k].lines|
    ensures var at := hunks[k].start - pos + TotalGrowth(hunks[..k]) + j;
      0 <= at < |Merge(original, hunks, pos)| && Merge(original, hunks, pos)[at] == hunks[k].lines[j]
  {
    InOrderBounds(hunks, pos, |original|);
    var h := hunks[0];
    var head, rest := original[pos..h.start] + h.lines, Merge(original, hunks[1..], h.End());
    assert Merge(original, hunks, pos) == head + rest;
    if k == 0 {
      assert hunks[..0] == [];
      assert (head + rest)[h.start - pos + j] == head[h.start - pos + j] == h.lines[j];
    } else {
      hide Merge, InOrder;
      InOrderTail(hunks, pos, |original|);
      assert hunks[1..][k - 1] == hunks[k];
      HunkLineLands(original, hunks[1..], h.End(), k - 1, j);
      var at := hunks[k].start - h.End() + TotalGrowth(hunks[1..][..k - 1]) + j;
      assert hunks[..k][0] == h && hunks[..k][1..] == hunks[1..][..k - 1];
      assert (head + rest)[|head| + at] == rest[at];
    }
  }

  lemma InOrderTail(hunks: seq<Hunk>, pos: int, n: int)
    requires InOrder(hunks, pos, n) && hunks != []
    ensures pos <= hunks[0].start && InOrder(hunks[1..], hunks[0].End(), n)
  {
  }

  /** The text of the old ranges is never looked at: originals that agree outside the hunks
      are patched alike. */
  lemma {:induction false} OldRangesAreIgnored(a: seq<string>, b: seq<string>, hunks: seq<Hunk>, pos: nat)
    requires |a| == |b| && InOrder(hunks, pos, |a|)
    requires forall i :: pos <= i < |a| && Outside(hunks, i) ==> a[i] == b[i]
    ensures Merge(a, hunks, pos) == Merge(b, hunks, pos)
  {
    InOrderBounds(hunks, pos, |a|);
    if hunks == [] {
      forall i | pos <= i < |a|
        ensures a[i] == b[i]
      {
        assert Outside(hunks, i);
      }
      assert a[pos..] == b[pos..];
    } else {
      var h := hunks[0];
      assert a[pos..h.start] == b[pos..h.start] by {
        forall i | pos <= i < h.start
          ensures a[i] == b[i]
        {
          OutsideOfLater(hunks, pos, |a|, i);
        }
      }
      forall i | h.End() <= i < |a| && Outside(hunks[1..], i)
        ensures a[i] == b[i]
      {
        forall k | 0 <= k < |hunks|
          ensures i < hunks[k].start || hunks[k].End() <= i
        {
          if k > 0 {
            assert hunks[k] == hunks[1..][k - 1];
          }
        }
        assert Outside(hunks, i);
      }
      OldRangesAreIgnored(a, b, hunks[1..], h.End());
    }
  }

  lemma {:induction false} OutsideOfLater(hunks: seq<Hunk>, pos: int, n: int, i: int)
    requires InOrder(hunks, pos, n)
    requires hunks == [] || i < hunks[0].start
    ensures Outside(hunks, i)
  {
    if hunks != [] {
      if |hunks| > 1 {
        assert hunks[1..][0] == hunks[1];
        assert i < hunks[1].start;
      }
      OutsideOfLater(hunks[1..], hunks[0].End(), n, i);
      forall k | 0 <= k < |hunks|
        ensures i < hunks[k].start || hunks[k].End() <= i
      {
        if k > 0 {
          assert hunks[k] == hunks[1..][k - 1];
        }
      }
    }
  }
}
