// spp_allocator's bookkeeping: a Page tracks which of its bm_sz slots are
// busy in a bitset, with its free count and a remembered run of free slots;
// a Segment owns at most one page and its longest_free; a SegTree keeps,
// at every inner node, the largest longest_free below it. Item memory is not
// modelled: a block is its slot range inside a page, and a pointer is a
// (segment index, offset) pair.
module SppAlloc {
  import opened Words
  import opened BitSpec
  import opened SppBitset

  datatype Option<T> = None | Some(value: T)

  // ---------------------------------------------------------------
  // The remembered run of free slots
  // ---------------------------------------------------------------

  /**
   * What a page promises about the longest_free value lf its segment holds:
   * the page has a run of lf free slots; the recorded run [lzs, lzs + lf),
   * when set, is free; and when 0 < lf < max_lf it is bounded by busy slots
   * (or the ends of the page) on both sides.
   */
  ghost predicate Honest(b: seq<bool>, lzs: nat, lf: nat, maxLf: nat)
  {
    HasZeroRun(b, lf)
    && (lzs != NPOS ==> ZeroRunAt(b, lzs, lf) && (0 < lf < maxLf ==> MaximalZeroRun(b, lzs, lf)))
  }

  /** A run of lf free slots fits in the free count: lf >= max_lf || lf <= _num_free. */
  lemma RunWithinFree(b: seq<bool>, lf: nat)
    requires HasZeroRun(b, lf)
    ensures lf <= CountZero(b)
  {
    var s: nat :| ZeroRunAt(b, s, lf);
    ZeroRunCount(b, s, lf);
  }

  /** Freeing slots keeps every run of free slots. */
  lemma ResetKeepsRun(b: seq<bool>, from: nat, to: nat, lf: nat)
    requires HasZeroRun(b, lf)
    ensures HasZeroRun(ResetRange(b, from, to), lf)
  {
    var s: nat :| ZeroRunAt(b, s, lf);
    ResetKeepsZeroRun(b, from, to, s, lf);
  }

  /** Taking the free slots [from, to) lowers the free count by their number. */
  lemma TakeCount(b: seq<bool>, b': seq<bool>, from: nat, to: nat, free: nat)
    requires from <= to <= |b| && NoneIn(b, from, to) && free == CountZero(b)
    requires b' == SetRange(b, from, to)
    ensures CountZero(b') + (to - from) == free
  {
    CountZeroSet(b, from, to);
  }

  /** Freeing the busy slots [from, to) raises the free count by their number. */
  lemma ReleaseCount(b: seq<bool>, b': seq<bool>, from: nat, to: nat, free: nat)
    requires from <= to <= |b| && AllIn(b, from, to) && free == CountZero(b)
    requires b' == ResetRange(b, from, to)
    ensures CountZero(b') == free + (to - from)
  {
    CountZeroReset(b, from, to);
  }

  /** With at most one free slot, the free count is the longest free run. */
  lemma FewFree(b: seq<bool>)
    requires CountZero(b) <= 1
    ensures HasZeroRun(b, CountZero(b)) && CountZero(b) == LongestZeroRun(b)
  {
    var L := LongestZeroRun(b);
    CountZeroExtremes(b);
    assert ZeroRunAt(b, 0, 0);
    if CountZero(b) == 0 {
      AllSetLongest(b);
      LongestZeroRunUnique(b, L, 0);
    } else {
      SomeZeroRun(b);
      LongestAtLeast(b, 1);
      RunWithinFree(b, L);
    }
  }

  /** A page whose slots are all free, with the whole page as its run. */
  lemma AllFreeHonest(b: seq<bool>, maxLf: nat)
    requires NoneSet(b) || CountZero(b) == |b|
    ensures Honest(b, 0, |b|, maxLf) && CountZero(b) == |b|
  {
    CountZeroExtremes(b);
    assert ZeroRunAt(b, 0, |b|);
  }

  /** A bounded run of free slots, recorded as the new run. */
  lemma NewRunHonest(b: seq<bool>, s: nat, len: nat, maxLf: nat)
    requires MaximalZeroRun(b, s, len)
    ensures Honest(b, s, len, maxLf) && len <= CountZero(b)
  {
    assert ZeroRunAt(b, s, len);
    RunWithinFree(b, len);
  }

  /** The first longest run, as longest_free records it, is bounded on both sides. */
  lemma FoundHonest(b: seq<bool>, lzs: nat, lf: nat, maxLf: nat)
    requires HasZeroRun(b, lf)
    requires lzs != NPOS ==> lf == LongestZeroRun(b) && FirstZeroRun(b, lzs, lf)
    ensures Honest(b, lzs, lf, maxLf)
  {
    if lzs != NPOS {
      LongestIsMaximal(b, lzs, lf);
    }
  }

  /**
   * allocate's fast path: the recorded run held every free slot and the
   * block is taken from its front; the rest of the run is still free, holds
   * every free slot, and so is bounded by busy slots.
   */
  lemma TakeFromRun(b: seq<bool>, b': seq<bool>, s: nat, lf: nat, n: nat, maxLf: nat)
    requires ZeroRunAt(b, s, lf) && lf == CountZero(b) && 1 <= n <= lf
    requires b' == SetRange(b, s, s + n)
    ensures Honest(b', s + n, lf - n, maxLf) && CountZero(b') == lf - n
  {
    TakeCount(b, b', s, s + n, lf);
    assert ZeroRunAt(b', s + n, lf - n) && b'[s + n - 1];
    if s + lf < |b| {
      AllZerosInRun(b, s, lf, s + lf);
      assert b'[s + lf];
    }
    assert MaximalZeroRun(b', s + n, lf - n);
  }

  /**
   * extend after the block: a bounded run that does not start right after
   * the block lies clear of the slots taken, and stays bounded.
   */
  lemma GrowAfterHonest(b: seq<bool>, b': seq<bool>, start: nat, oldSz: nat, newSz: nat, lzs: nat, lf: nat, maxLf: nat)
    requires 1 <= oldSz <= newSz && start + newSz <= |b|
    requires AllIn(b, start, start + oldSz) && NoneIn(b, start + oldSz, start + newSz)
    requires Honest(b, lzs, lf, maxLf) && lzs != NPOS && lf < maxLf && lzs != start + oldSz
    requires b' == SetRange(b, start + oldSz, start + newSz)
    ensures Honest(b', lzs, lf, maxLf) && lf <= CountZero(b')
  {
    var a := start + oldSz;
    if 0 < lf {
      if lzs < a {
        assert b[a - 1];
      } else {
        assert b[lzs - 1];
      }
      SetOutsideKeepsZeroRun(b, a, start + newSz, lzs, lf);
    } else {
      assert ZeroRunAt(b', lzs, 0);
    }
    RunWithinFree(b', lf);
  }

  /**
   * extend before the block: a bounded run that does not end right at the
   * block lies clear of the slots taken, and stays bounded.
   */
  lemma GrowBeforeHonest(b: seq<bool>, b': seq<bool>, start: nat, add: nat, lzs: nat, lf: nat, maxLf: nat)
    requires add <= start < |b| && b[start] && NoneIn(b, start - add, start)
    requires Honest(b, lzs, lf, maxLf) && lzs != NPOS && lf < maxLf && lzs + lf != start
    requires b' == SetRange(b, start - add, start)
    ensures Honest(b', lzs, lf, maxLf) && lf <= CountZero(b')
  {
    if 0 < lf {
      if lzs < start {
        assert b[start];
        assert b[lzs + lf];
      }
      SetOutsideKeepsZeroRun(b, start - add, start, lzs, lf);
    } else {
      assert ZeroRunAt(b', lzs, 0);
    }
    RunWithinFree(b', lf);
  }

  /**
   * shrink: freeing the tail [start + newSz, start + oldSz) keeps every
   * free run, and touches a bounded run only when it starts right after
   * the block.
   */
  lemma ShrinkHonest(b: seq<bool>, b': seq<bool>, start: nat, oldSz: nat, newSz: nat, lzs: nat, lf: nat, maxLf: nat)
    requires 1 <= newSz <= oldSz && start + oldSz <= |b| && AllIn(b, start, start + oldSz)
    requires Honest(b, lzs, lf, maxLf) && !(lf < maxLf && lzs == start + oldSz)
    requires b' == ResetRange(b, start + newSz, start + oldSz)
    ensures Honest(b', lzs, lf, maxLf) && lf <= CountZero(b')
  {
    ResetKeepsRun(b, start + newSz, start + oldSz, lf);
    if lzs != NPOS {
      ResetKeepsZeroRun(b, start + newSz, start + oldSz, lzs, lf);
      if 0 < lf < maxLf {
        assert !b[lzs] && !b[lzs + lf - 1];
      }
    }
    RunWithinFree(b', lf);
  }

  /**
   * free, keeping lf: freeing keeps every free run; below max_lf, when the
   * run around the freed range is no longer than lf, the freed range does
   * not touch the bounds of the recorded run.
   */
  lemma FreeKeepHonest(b: seq<bool>, b': seq<bool>, start: nat, end: nat, lzs: nat, lf: nat, maxLf: nat, sp: nat, lg: nat)
    requires start <= end <= |b| && AllIn(b, start, end) && Honest(b, lzs, lf, maxLf)
    requires b' == ResetRange(b, start, end)
    requires lf < maxLf ==> MaximalZeroRun(b', sp, lg) && sp <= start && end <= sp + lg && lg <= lf
    ensures Honest(b', lzs, lf, maxLf) && lf <= CountZero(b')
  {
    ResetKeepsRun(b, start, end, lf);
    if lzs != NPOS {
      ResetKeepsZeroRun(b, start, end, lzs, lf);
      if 0 < lf < maxLf {
        if sp + lg < |b| {
          assert b'[sp + lg];
        }
        if sp > 0 {
          assert b'[sp - 1];
        }
      }
    }
    RunWithinFree(b', lf);
  }

  /** A page with no free slot has no free run of length 1. */
  lemma FullHasNoRun(b: seq<bool>)
    requires CountZero(b) == 0
    ensures !HasZeroRun(b, 1)
  {
    if HasZeroRun(b, 1) {
      RunWithinFree(b, 1);
    }
  }

  // ---------------------------------------------------------------
  // Page
  // ---------------------------------------------------------------

  /**
   * find_next_n's choice: the first run of n free slots at or after `from`,
   * or, when there is none, the first run of n free slots in the page.
   */
  ghost predicate FirstFit(b: seq<bool>, from: nat, s: nat, n: nat)
  {
    FirstZeroRunFrom(b, from, s, n) || (NoZeroRunIn(b, from, |b|, n) && FirstZeroRunFrom(b, 0, s, n))
  }

  /**
   * Page<bm_sz>: a bitset of busy slots (0 free, 1 busy), the number of free
   * slots, where the next first-fit search starts, and the start of the run
   * of free slots last found (NPOS when not set). max_lf is SPP_GROUP_SIZE:
   * a run that long is all a caller ever asks for.
   */
  class Page {
    const bmSz: nat
    const maxLf: nat
    /** _bs */
    const bs: Bitset
    /** _num_free */
    var numFree: nat
    /** _start_idx */
    var startIdx: nat
    /** _lzs_start */
    var lzsStart: nat

    ghost function Bits(): (b: seq<bool>)
      reads bs.words
      requires bs.Valid()
      ensures |b| == bs.n
    {
      bs.Bits()
    }

    /** num_allocated() + _num_free == bm_sz: the free count is the number of clear bits. */
    ghost predicate Valid()
      reads this, bs.words
    {
      bs.Valid() && bs.n == bmSz && 1 <= maxLf <= W
      && numFree == CountZero(Bits()) && startIdx <= bmSz
    }

    /** The page keeps its promise about the caller's lf (the segment's longest_free). */
    ghost predicate Inv(lf: nat)
      reads this, bs.words
    {
      Valid() && Honest(Bits(), lzsStart, lf, maxLf)
    }

    /** Page(): every slot free, the whole page as the recorded run. */
    constructor (size: nat, maxRun: nat)
      requires 0 < size < NPOS && size % W == 0 && 1 <= maxRun <= W
      ensures bmSz == size && maxLf == maxRun && fresh(bs) && fresh(bs.words)
      ensures Inv(size) && NoneSet(Bits())
      ensures numFree == size && startIdx == 0 && lzsStart == 0
    {
      bmSz := size;
      maxLf := maxRun;
      bs := new Bitset(size);
      numFree := size;
      startIdx := 0;
      lzsStart := 0;
      new;
      AllFreeHonest(Bits(), maxRun);
    }

    /** num_allocated(): the busy slots; with _num_free they make up the page. */
    method NumAllocated() returns (r: nat)
      requires Valid()
      ensures r == CountTrue(Bits()) && r + numFree == bmSz
    {
      r := bs.Count();
    }

    /**
     * longest_free(): forgets the recorded run; with _num_free at most 1 that
     * count is the answer; a free word (other than word 0) gives max_lf;
     * otherwise the capped longest-run search records where its run starts.
     * From the bits, the result is the longest free run, or max_lf when a run
     * at least that long exists, and it never overstates.
     */
    method LongestFree() returns (r: nat)
      requires bs.Valid() && bs.n == bmSz && 1 <= maxLf <= W
      modifies this
      ensures numFree == old(numFree) && startIdx == old(startIdx)
      ensures numFree <= 1 ==> r == numFree && lzsStart == NPOS
      ensures 1 < numFree ==>
        (HasZeroRun(Bits(), r) && r <= LongestZeroRun(Bits()) && (r == LongestZeroRun(Bits()) || r == maxLf)
         && (lzsStart != NPOS ==> r == LongestZeroRun(Bits()) && r < maxLf && FirstZeroRun(Bits(), lzsStart, r)))
    {
      lzsStart := NPOS;
      if numFree <= 1 {
        return numFree;
      }
      var b := Bits();
      var L := LongestZeroRun(b);
      var hz := bs.HasZeroWord();
      if hz {
        ShorterZeroRun(b, W, maxLf);
        LongestAtLeast(b, W);
        return maxLf;
      }
      r, lzsStart := bs.LongestZeroSequenceCapped(maxLf, NPOS);
      if NoneSet(b) {
        NoneSetLongest(b);
        LongestZeroRunUnique(b, L, bmSz);
        assert ZeroRunAt(b, 0, bmSz);
      } else {
        ShorterZeroRun(b, L, r);
      }
    }

    /**
     * _update_longest_free(lf, diff): lf becomes longest_free(), and diff is
     * the change (0 when there is none). The result is honest whenever the
     * free count is current or above 1.
     */
    method UpdateLongestFree(lf: nat) returns (newLf: nat, diff: int)
      requires bs.Valid() && bs.n == bmSz && 1 <= maxLf <= W
      modifies this
      ensures numFree == old(numFree) && startIdx == old(startIdx) && diff == newLf - lf
      ensures numFree <= 1 ==> newLf == numFree && lzsStart == NPOS
      ensures numFree == CountZero(Bits()) || 1 < numFree ==>
        (Honest(Bits(), lzsStart, newLf, maxLf) && newLf <= LongestZeroRun(Bits())
         && (newLf == LongestZeroRun(Bits()) || newLf == maxLf))
      ensures numFree == CountZero(Bits()) ==> newLf <= numFree
      ensures old(Valid()) ==> Inv(newLf) && newLf <= numFree
    {
      newLf := LongestFree();
      if numFree <= 1 {
        if numFree == CountZero(Bits()) {
          FewFree(Bits());
        }
      } else {
        FoundHonest(Bits(), lzsStart, newLf, maxLf);
      }
      if numFree == CountZero(Bits()) {
        RunWithinFree(Bits(), newLf);
      }
      diff := if newLf == lf then 0 else newLf - lf;
    }

    /** The free slots [from, to) become busy and leave the free count. */
    method Take(from: nat, to: nat)
      requires Valid() && from <= to <= bmSz && NoneIn(Bits(), from, to)
      modifies this, bs.words
      ensures Valid() && Bits() == SetRange(old(Bits()), from, to)
      ensures numFree == old(numFree) - (to - from) && startIdx == old(startIdx) && lzsStart == old(lzsStart)
    {
      ghost var b := Bits();
      bs.SetRange(from, to);
      TakeCount(b, Bits(), from, to, numFree);
      numFree := numFree - (to - from);
    }

    /** The busy slots [from, to) become free and join the free count. */
    method Release(from: nat, to: nat)
      requires Valid() && from <= to <= bmSz && AllIn(Bits(), from, to)
      modifies this, bs.words
      ensures Valid() && Bits() == ResetRange(old(Bits()), from, to)
      ensures numFree == old(numFree) + (to - from) && startIdx == old(startIdx) && lzsStart == old(lzsStart)
    {
      ghost var b := Bits();
      bs.ResetRange(from, to);
      ReleaseCount(b, Bits(), from, to, numFree);
      numFree := numFree + (to - from);
    }

    /**
     * The first part of allocate: find_next_n from _start_idx picks a run of
     * n free slots, the next search starts after it, and its slots become
     * busy; _num_free is not touched yet.
     */
    method Mark(n: nat) returns (start: nat)
      requires Valid() && 1 <= n && HasZeroRun(Bits(), n)
      modifies this, bs.words
      ensures bs.Valid() && bs.n == bmSz && numFree == old(numFree) && lzsStart == old(lzsStart)
      ensures start + n <= bmSz && startIdx == start + n
      ensures FirstFit(old(Bits()), old(startIdx), start, n) && ZeroRunAt(old(Bits()), start, n)
      ensures Bits() == SetRange(old(Bits()), start, start + n)
      ensures CountZero(Bits()) + n == numFree
    {
      ghost var b := Bits();
      ghost var free := numFree;
      start := bs.FindNextN(n, startIdx);
      startIdx := start + n;
      bs.SetRange(start, start + n);
      TakeCount(b, Bits(), start, start + n, free);
    }

    /**
     * allocate(n, lf, diff) as written: the first run of n free slots from
     * _start_idx (wrapping to the front) becomes busy and the next search
     * starts after it. When the recorded run held every free slot and the
     * block was taken from its front, lf and the run shrink by n; otherwise
     * lf is recomputed, but before _num_free is lowered: with one free slot
     * left, the shortcut of longest_free() reports that slot although it has
     * just been taken.
     */
    method AllocateAsWritten(n: nat, lf: nat) returns (start: nat, newLf: nat, diff: int)
      requires Inv(lf) && 1 <= n <= lf
      modifies this, bs.words
      ensures diff == newLf - lf && Valid()
      ensures start + n <= bmSz && FirstFit(old(Bits()), old(startIdx), start, n)
      ensures Bits() == SetRange(old(Bits()), start, start + n)
      ensures numFree == old(numFree) - n && startIdx == start + n
      ensures 1 < old(numFree) || old(lzsStart) == start ==> Inv(newLf)
      ensures old(numFree) == 1 && old(lzsStart) != start ==>
        (newLf == 1 && numFree == 0 && !HasZeroRun(Bits(), newLf))
    {
      ghost var b := Bits();
      ShorterZeroRun(b, lf, n);
      RunWithinFree(b, lf);
      start := Mark(n);
      newLf, diff := SettleAsWritten(b, start, n, lf);
    }

    /** allocate as written after the block was marked busy: lf recomputed before _num_free is lowered. */
    method SettleAsWritten(ghost b: seq<bool>, start: nat, n: nat, lf: nat) returns (newLf: nat, diff: int)
      requires bs.Valid() && bs.n == bmSz && 1 <= maxLf <= W && startIdx <= bmSz
      requires Honest(b, lzsStart, lf, maxLf) && numFree == CountZero(b) && 1 <= n <= lf <= numFree
      requires start + n <= bmSz && Bits() == SetRange(b, start, start + n) && CountZero(Bits()) + n == numFree
      modifies this
      ensures diff == newLf - lf && Valid()
      ensures numFree == old(numFree) - n && startIdx == old(startIdx)
      ensures 1 < old(numFree) || old(lzsStart) == start ==> Inv(newLf)
      ensures old(numFree) == 1 && old(lzsStart) != start ==>
        (newLf == 1 && numFree == 0 && !HasZeroRun(Bits(), newLf))
    {
      if lf == numFree && lzsStart == start {
        newLf, diff := FastPath(b, start, n, lf);
      } else {
        newLf, diff := UpdateThenLower(n, lf);
      }
    }

    /**
     * allocate's fast path, the same as written and corrected: the block
     * taken was the front of the recorded run, which held every free slot;
     * the run and lf shrink by n.
     */
    method FastPath(ghost b: seq<bool>, start: nat, n: nat, lf: nat) returns (newLf: nat, diff: int)
      requires bs.Valid() && bs.n == bmSz && 1 <= maxLf <= W && startIdx <= bmSz
      requires Honest(b, lzsStart, lf, maxLf) && numFree == CountZero(b) && 1 <= n <= lf
      requires lf == numFree && lzsStart == start
      requires start + n <= bmSz && Bits() == SetRange(b, start, start + n) && CountZero(Bits()) + n == numFree
      modifies this
      ensures diff == newLf - lf && Valid()
      ensures numFree == old(numFree) - n && startIdx == old(startIdx)
      ensures Inv(newLf) && newLf == numFree && lzsStart == start + n
    {
      TakeFromRun(b, Bits(), start, lf, n, maxLf);
      lzsStart, numFree := lzsStart + n, numFree - n;
      newLf, diff := lf - n, -(n as int);
    }

    /**
     * allocate's other path as written: lf is recomputed while _num_free
     * still counts the n slots just taken, then _num_free is lowered.
     */
    method UpdateThenLower(n: nat, lf: nat) returns (newLf: nat, diff: int)
      requires bs.Valid() && bs.n == bmSz && 1 <= maxLf <= W && startIdx <= bmSz
      requires 1 <= n && CountZero(Bits()) + n == numFree
      modifies this
      ensures diff == newLf - lf && Valid()
      ensures numFree == old(numFree) - n && startIdx == old(startIdx)
      ensures 1 < old(numFree) ==> Inv(newLf)
      ensures old(numFree) == 1 ==> newLf == 1 && numFree == 0 && !HasZeroRun(Bits(), newLf)
    {
      newLf, diff := UpdateLongestFree(lf);
      numFree := numFree - n;
      if numFree == 0 {
        FullHasNoRun(Bits());
      }
    }

    /**
     * allocate with _num_free lowered before lf is recomputed, so that the
     * page keeps its promise on every path.
     */
    method Allocate(n: nat, lf: nat) returns (start: nat, newLf: nat, diff: int)
      requires Inv(lf) && 1 <= n <= lf
      modifies this, bs.words
      ensures Inv(newLf) && diff == newLf - lf && newLf <= numFree
      ensures start + n <= bmSz && FirstFit(old(Bits()), old(startIdx), start, n)
      ensures Bits() == SetRange(old(Bits()), start, start + n)
      ensures numFree == old(numFree) - n && startIdx == start + n
    {
      ghost var b := Bits();
      ShorterZeroRun(b, lf, n);
      start := Mark(n);
      newLf, diff := Settle(b, start, n, lf);
    }

    /**
     * allocate after the block [start, start + n) was marked busy in b: the
     * fast path when the block was the front of the recorded run holding
     * every free slot, lf recomputed otherwise.
     */
    method Settle(ghost b: seq<bool>, start: nat, n: nat, lf: nat) returns (newLf: nat, diff: int)
      requires bs.Valid() && bs.n == bmSz && 1 <= maxLf <= W && startIdx <= bmSz
      requires Honest(b, lzsStart, lf, maxLf) && numFree == CountZero(b) && 1 <= n <= lf
      requires start + n <= bmSz && Bits() == SetRange(b, start, start + n) && CountZero(Bits()) + n == numFree
      modifies this
      ensures Inv(newLf) && diff == newLf - lf && newLf <= numFree
      ensures numFree == old(numFree) - n && startIdx == old(startIdx)
    {
      if lf == numFree && lzsStart == start {
        newLf, diff := FastPath(b, start, n, lf);
      } else {
        newLf, diff := LowerThenUpdate(n, lf);
      }
    }

    /** allocate's other path, in the corrected order: _num_free is lowered, then lf is recomputed. */
    method LowerThenUpdate(n: nat, lf: nat) returns (newLf: nat, diff: int)
      requires bs.Valid() && bs.n == bmSz && 1 <= maxLf <= W && startIdx <= bmSz
      requires CountZero(Bits()) + n == numFree
      modifies this
      ensures Inv(newLf) && newLf <= numFree && diff == newLf - lf
      ensures numFree == old(numFree) - n && startIdx == old(startIdx)
    {
      numFree := numFree - n;
      newLf, diff := UpdateLongestFree(lf);
    }

    /** The slots [start + oldSz, start + newSz) become busy; lf is kept unless the recorded run may be hit. */
    method GrowAfter(start: nat, oldSz: nat, newSz: nat, lf: nat) returns (newLf: nat, diff: int)
      requires Inv(lf) && 1 <= oldSz < newSz && start + newSz <= bmSz
      requires AllIn(Bits(), start, start + oldSz) && NoneIn(Bits(), start + oldSz, start + newSz)
      modifies this, bs.words
      ensures Inv(newLf) && diff == newLf - lf && newLf <= numFree
      ensures Bits() == SetRange(old(Bits()), start + oldSz, start + newSz)
      ensures numFree == old(numFree) - (newSz - oldSz) && startIdx == old(startIdx)
    {
      ghost var b := Bits();
      Take(start + oldSz, start + newSz);
      if lzsStart == NPOS || lf >= maxLf || lzsStart == start + oldSz {
        newLf, diff := UpdateLongestFree(lf);
      } else {
        GrowAfterHonest(b, Bits(), start, oldSz, newSz, lzsStart, lf, maxLf);
        newLf, diff := lf, 0;
      }
    }

    /** The slots [start - add, start) become busy; lf is kept unless the recorded run may be hit. */
    method GrowBefore(start: nat, add: nat, lf: nat) returns (newLf: nat, diff: int)
      requires Inv(lf) && add <= start < bmSz && Bits()[start] && NoneIn(Bits(), start - add, start)
      modifies this, bs.words
      ensures Inv(newLf) && diff == newLf - lf && newLf <= numFree
      ensures Bits() == SetRange(old(Bits()), start - add, start)
      ensures numFree == old(numFree) - add && startIdx == old(startIdx)
    {
      ghost var b := Bits();
      Take(start - add, start);
      if lzsStart == NPOS || lf >= maxLf || lzsStart + lf == start {
        newLf, diff := UpdateLongestFree(lf);
      } else {
        GrowBeforeHonest(b, Bits(), start, add, lzsStart, lf, maxLf);
        newLf, diff := lf, 0;
      }
    }

    /**
     * extend(start, old_sz, new_sz, request_space_after, lf, diff): grows the
     * busy block [start, start + old_sz) in place by add = new_sz - old_sz
     * slots: nothing when lf < add; after the block when asked for and free;
     * else before it when free; else after it when free; else nothing.
     */
    method Extend(start: nat, oldSz: nat, newSz: nat, after: bool, lf: nat)
      returns (res: Option<nat>, newLf: nat, diff: int)
      requires Inv(lf) && 1 <= oldSz < newSz && start + oldSz <= bmSz
      requires AllIn(Bits(), start, start + oldSz)
      modifies this, bs.words
      ensures res == ExtendChoice(old(Bits()), start, oldSz, newSz, after, lf)
      ensures Inv(newLf) && diff == newLf - lf && newLf <= numFree && startIdx == old(startIdx)
      ensures res.None? ==> Bits() == old(Bits()) && numFree == old(numFree) && newLf == lf
      ensures res.Some? ==> numFree == old(numFree) - (newSz - oldSz)
      ensures res == Some(start) ==> Bits() == SetRange(old(Bits()), start + oldSz, start + newSz)
      ensures res.Some? && res != Some(start) ==> Bits() == SetRange(old(Bits()), res.value, start)
    {
      RunWithinFree(Bits(), lf);
      assert Bits()[start];
      assert lzsStart != start || lf == 0;
      res := ChooseExtend(start, oldSz, newSz, after, lf);
      if res == Some(start) {
        newLf, diff := GrowAfter(start, oldSz, newSz, lf);
      } else if res.Some? {
        newLf, diff := GrowBefore(start, newSz - oldSz, lf);
      } else {
        newLf, diff := lf, 0;
      }
    }

    /** The decision of extend, read from the bitset. */
    method ChooseExtend(start: nat, oldSz: nat, newSz: nat, after: bool, lf: nat) returns (res: Option<nat>)
      requires Valid() && oldSz < newSz && start + oldSz <= bmSz
      ensures res == ExtendChoice(Bits(), start, oldSz, newSz, after, lf)
    {
      var add := newSz - oldSz;
      if lf < add {
        return None;
      }
      var haveAfter := false;
      if start + newSz <= bmSz {
        haveAfter := bs.NoneRange(start + oldSz, start + newSz);
      }
      if after && haveAfter {
        return Some(start);
      }
      var haveBefore := false;
      if start >= add {
        haveBefore := bs.NoneRange(start - add, start);
      }
      if haveBefore && (!after || !haveAfter) {
        return Some(start - add);
      }
      if haveAfter {
        return Some(start);
      }
      return None;
    }

    /**
     * shrink(start, old_sz, new_sz, lf, diff): the tail [start + new_sz,
     * start + old_sz) of the busy block is freed and the block keeps its
     * start; lf is recomputed only when below max_lf and the recorded run
     * begins right after the block.
     */
    method Shrink(start: nat, oldSz: nat, newSz: nat, lf: nat) returns (res: nat, newLf: nat, diff: int)
      requires Inv(lf) && 1 <= newSz < oldSz && start + oldSz <= bmSz
      requires AllIn(Bits(), start, start + oldSz)
      modifies this, bs.words
      ensures Inv(newLf) && diff == newLf - lf && newLf <= numFree && startIdx == old(startIdx)
      ensures res == start
      ensures Bits() == ResetRange(old(Bits()), start + newSz, start + oldSz)
      ensures numFree == old(numFree) + (oldSz - newSz)
    {
      ghost var b := Bits();
      Release(start + newSz, start + oldSz);
      if lf < maxLf && lzsStart == start + oldSz {
        newLf, diff := UpdateLongestFree(lf);
      } else {
        ShrinkHonest(b, Bits(), start, oldSz, newSz, lzsStart, lf, maxLf);
        newLf, diff := lf, 0;
      }
      res := start;
    }

    /**
     * free(start, n, lf, diff) as written: the busy block [start, start + n)
     * is freed. A page left entirely free takes lf = bm_sz and the whole page
     * as its run but leaves diff untouched (the caller's 0); below max_lf the
     * run around the block replaces lf when longer; at or above max_lf, diff
     * is 0.
     */
    method FreeAsWritten(start: nat, n: nat, lf: nat) returns (newLf: nat, diff: int)
      requires Inv(lf) && start + n <= bmSz && AllIn(Bits(), start, start + n)
      modifies this, bs.words
      ensures Inv(newLf) && newLf <= numFree && lf <= newLf && startIdx == old(startIdx)
      ensures Bits() == ResetRange(old(Bits()), start, start + n)
      ensures numFree == old(numFree) + n
      ensures numFree == bmSz ==> newLf == bmSz && lzsStart == 0 && diff == 0
      ensures numFree < bmSz ==> diff == newLf - lf
    {
      ghost var b := Bits();
      Release(start, start + n);
      newLf, diff := lf, 0;
      if numFree == bmSz {
        newLf := RecordWholePage();
      } else if lf < maxLf {
        newLf, diff := MergeAround(b, start, start + n, lf);
      } else {
        FreeKeepHonest(b, Bits(), start, start + n, lzsStart, lf, maxLf, 0, 0);
        diff := 0;
      }
    }

    /** A page left with every slot free records the whole page as its run. */
    method RecordWholePage() returns (newLf: nat)
      requires Valid() && numFree == bmSz
      modifies this
      ensures Inv(newLf) && newLf == bmSz && lzsStart == 0
      ensures numFree == old(numFree) && startIdx == old(startIdx)
    {
      AllFreeHonest(Bits(), maxLf);
      lzsStart := 0;
      newLf := bmSz;
    }

    /**
     * free below max_lf, once the block [start, end) is free again: the run
     * of free slots around it becomes the recorded run when longer than lf.
     */
    method MergeAround(ghost b: seq<bool>, start: nat, end: nat, lf: nat) returns (newLf: nat, diff: int)
      requires Valid() && start <= end <= bmSz == |b| && lf < maxLf
      requires AllIn(b, start, end) && Honest(b, lzsStart, lf, maxLf) && Bits() == ResetRange(b, start, end)
      modifies this
      ensures Inv(newLf) && lf <= newLf <= numFree && diff == newLf - lf
      ensures numFree == old(numFree) && startIdx == old(startIdx)
    {
      var lg, sp := bs.ZeroSequenceSizeAround(start, end);
      if lg > lf {
        NewRunHonest(Bits(), sp, lg, maxLf);
        newLf, diff := lg, lg - lf;
        lzsStart := sp;
      } else {
        FreeKeepHonest(b, Bits(), start, end, lzsStart, lf, maxLf, sp, lg);
        newLf, diff := lf, 0;
      }
    }

    /**
     * free with diff reporting the change of lf on every path: a page left
     * entirely free reports bm_sz - lf.
     */
    method Free(start: nat, n: nat, lf: nat) returns (newLf: nat, diff: int)
      requires Inv(lf) && start + n <= bmSz && AllIn(Bits(), start, start + n)
      modifies this, bs.words
      ensures Inv(newLf) && newLf <= numFree && lf <= newLf && startIdx == old(startIdx)
      ensures Bits() == ResetRange(old(Bits()), start, start + n)
      ensures numFree == old(numFree) + n
      ensures numFree == bmSz ==> newLf == bmSz && lzsStart == 0
      ensures diff == newLf - lf
    {
      newLf, diff := FreeAsWritten(start, n, lf);
      if numFree == bmSz {
        diff := bmSz - lf;
      }
    }
  }

  /** have_space_after: the block can grow after itself inside the page. */
  predicate SpaceAfter(b: seq<bool>, start: nat, oldSz: nat, newSz: nat)
    requires oldSz <= newSz
  {
    start + newSz <= |b| && NoneIn(b, start + oldSz, start + newSz)
  }

  /** have_space_before: the add slots before the block are free. */
  predicate SpaceBefore(b: seq<bool>, start: nat, add: nat)
    requires start <= |b|
  {
    start >= add && NoneIn(b, start - add, start)
  }

  /**
   * Where extend grows a block of old_sz slots at start to new_sz slots:
   * Some(start) when it grows after itself, Some(start - add) when it grows
   * before itself, None when it cannot (lf below add, or no room on either
   * side).
   */
  function ExtendChoice(b: seq<bool>, start: nat, oldSz: nat, newSz: nat, after: bool, lf: nat): (r: Option<nat>)
    requires oldSz < newSz && start <= |b|
    ensures r == Some(start) ==> lf >= newSz - oldSz && SpaceAfter(b, start, oldSz, newSz)
    ensures r.Some? && r != Some(start) ==>
      (lf >= newSz - oldSz && r.value == start - (newSz - oldSz) && SpaceBefore(b, start, newSz - oldSz))
    ensures r.None? <==>
      (lf < newSz - oldSz || (!SpaceAfter(b, start, oldSz, newSz) && !SpaceBefore(b, start, newSz - oldSz)))
    ensures lf >= newSz - oldSz && after && SpaceAfter(b, start, oldSz, newSz) ==> r == Some(start)
    ensures lf >= newSz - oldSz && !(after && SpaceAfter(b, start, oldSz, newSz)) && SpaceBefore(b, start, newSz - oldSz)
            ==> r == Some(start - (newSz - oldSz))
  {
    var add := newSz - oldSz;
    if lf < add then None
    else if after && SpaceAfter(b, start, oldSz, newSz) then Some(start)
    else if SpaceBefore(b, start, add) then Some(start - add)
    else if SpaceAfter(b, start, oldSz, newSz) then Some(start)
    else None
  }

  // ---------------------------------------------------------------
  // Segment
  // ---------------------------------------------------------------

  /**
   * Segment<bm_sz>, held by value in the segment tree's vector: its page
   * (null before the first allocation and again once the page is entirely
   * free) and the longest_free value the tree reads.
   */
  datatype Segment = Segment(page: Page?, longestFree: nat)

  /** The objects a segment's page occupies. */
  function PageRepr(s: Segment): set<object>
  {
    if s.page == null then {} else {s.page, s.page.bs.words}
  }

  /**
   * A segment without a page advertises a whole page; one with a page
   * advertises an lf its page keeps its promise about.
   */
  ghost predicate SegOk(s: Segment, bmSz: nat, maxLf: nat)
    reads PageRepr(s)
  {
    if s.page == null then s.longestFree == bmSz
    else s.page.bmSz == bmSz && s.page.maxLf == maxLf && s.page.Inv(s.longestFree) && s.longestFree <= bmSz
  }

  /** The slots of the segment's page, all free when it has none. */
  ghost function SegBits(s: Segment, bmSz: nat): (b: seq<bool>)
    reads PageRepr(s)
    requires s.page != null ==> s.page.bs.Valid()
  {
    if s.page == null then seq(bmSz, _ => false) else s.page.Bits()
  }

  /** num_allocated() of the segment: 0 without a page. */
  ghost function Allocated(s: Segment): int
    reads PageRepr(s)
  {
    if s.page == null then 0 else s.page.bmSz - s.page.numFree
  }

  /** The page sizes a segment tree may use. */
  predicate PageShape(bmSz: nat, maxLf: nat)
  {
    0 < bmSz < NPOS && bmSz % W == 0 && 1 <= maxLf <= W
  }

  /**
   * Segment::allocate(n, diff): nothing, and no page created, when n exceeds
   * longest_free; otherwise the page (created on first use) allocates n
   * slots and lf follows.
   */
  method SegmentAllocate(s: Segment, n: nat, bmSz: nat, maxLf: nat) returns (t: Segment, res: Option<nat>, diff: int)
    requires PageShape(bmSz, maxLf) && SegOk(s, bmSz, maxLf) && 1 <= n
    modifies PageRepr(s)
    ensures n > s.longestFree ==> t == s && res.None? && diff == 0 && unchanged(PageRepr(s))
    ensures n <= s.longestFree ==>
      (res.Some? && t.page != null && SegOk(t, bmSz, maxLf) && diff == t.longestFree - s.longestFree
       && res.value + n <= bmSz && NoneIn(old(SegBits(s, bmSz)), res.value, res.value + n)
       && t.page.Bits() == SetRange(old(SegBits(s, bmSz)), res.value, res.value + n)
       && Allocated(t) == old(Allocated(s)) + n)
    ensures s.page != null ==> t.page == s.page
    ensures s.page == null && t.page != null ==> fresh(t.page) && fresh(t.page.bs.words)
  {
    if n > s.longestFree {
      return s, None, 0;
    }
    var page := s.page;
    if page == null {
      page := new Page(bmSz, maxLf);
      assert page.Bits() == SegBits(s, bmSz);
    }
    var start, newLf;
    start, newLf, diff := page.Allocate(n, s.longestFree);
    t, res := Segment(page, newLf), Some(start);
  }

  /** Segment::extend: its page extends the block in place; lf follows. */
  method SegmentExtend(s: Segment, start: nat, oldSz: nat, newSz: nat, after: bool, bmSz: nat, maxLf: nat)
    returns (t: Segment, res: Option<nat>, diff: int)
    requires SegOk(s, bmSz, maxLf) && s.page != null && 1 <= oldSz < newSz && start + oldSz <= bmSz
    requires AllIn(s.page.Bits(), start, start + oldSz)
    modifies PageRepr(s)
    ensures t.page == s.page && SegOk(t, bmSz, maxLf) && diff == t.longestFree - s.longestFree
    ensures res == ExtendChoice(old(s.page.Bits()), start, oldSz, newSz, after, s.longestFree)
    ensures res.None? ==> t == s && t.page.Bits() == old(s.page.Bits()) && Allocated(t) == old(Allocated(s))
    ensures res.Some? ==> Allocated(t) == old(Allocated(s)) + (newSz - oldSz)
    ensures res == Some(start) ==> t.page.Bits() == SetRange(old(s.page.Bits()), start + oldSz, start + newSz)
    ensures res.Some? && res != Some(start) ==> t.page.Bits() == SetRange(old(s.page.Bits()), res.value, start)
  {
    var newLf;
    res, newLf, diff := s.page.Extend(start, oldSz, newSz, after, s.longestFree);
    t := Segment(s.page, newLf);
  }

  /** Segment::shrink: its page frees the block's tail; lf follows. */
  method SegmentShrink(s: Segment, start: nat, oldSz: nat, newSz: nat, bmSz: nat, maxLf: nat)
    returns (t: Segment, res: nat, diff: int)
    requires SegOk(s, bmSz, maxLf) && s.page != null && 1 <= newSz < oldSz && start + oldSz <= bmSz
    requires AllIn(s.page.Bits(), start, start + oldSz)
    modifies PageRepr(s)
    ensures t.page == s.page && SegOk(t, bmSz, maxLf) && diff == t.longestFree - s.longestFree
    ensures res == start && Allocated(t) == old(Allocated(s)) - (oldSz - newSz)
    ensures t.page.Bits() == ResetRange(old(s.page.Bits()), start + newSz, start + oldSz)
  {
    var newLf;
    res, newLf, diff := s.page.Shrink(start, oldSz, newSz, s.longestFree);
    t := Segment(s.page, newLf);
  }

  /**
   * Segment::free as written: the page frees the block, and a page left
   * entirely free is released (lf = bm_sz, no page); the diff is the page's,
   * which is 0 on that path.
   */
  method SegmentFreeAsWritten(s: Segment, start: nat, n: nat, bmSz: nat, maxLf: nat)
    returns (t: Segment, diff: int)
    requires SegOk(s, bmSz, maxLf) && s.page != null && start + n <= bmSz
    requires AllIn(s.page.Bits(), start, start + n)
    modifies PageRepr(s)
    ensures SegOk(t, bmSz, maxLf) && s.longestFree <= t.longestFree
    ensures Allocated(t) == old(Allocated(s)) - n
    ensures t.page == null ==> t.longestFree == bmSz && diff == 0 && old(Allocated(s)) == n
    ensures t.page != null ==>
      (t.page == s.page && diff == t.longestFree - s.longestFree
       && t.page.Bits() == ResetRange(old(s.page.Bits()), start, start + n))
  {
    var newLf;
    newLf, diff := s.page.FreeAsWritten(start, n, s.longestFree);
    if s.page.numFree == bmSz {
      t := Segment(null, bmSz);
    } else {
      t := Segment(s.page, newLf);
    }
  }

  /** Segment::free with the page reporting the change of lf on every path. */
  method SegmentFree(s: Segment, start: nat, n: nat, bmSz: nat, maxLf: nat)
    returns (t: Segment, diff: int)
    requires SegOk(s, bmSz, maxLf) && s.page != null && start + n <= bmSz
    requires AllIn(s.page.Bits(), start, start + n)
    modifies PageRepr(s)
    ensures SegOk(t, bmSz, maxLf) && s.longestFree <= t.longestFree && diff == t.longestFree - s.longestFree
    ensures Allocated(t) == old(Allocated(s)) - n
    ensures t.page == null <==> old(Allocated(s)) == n
    ensures t.page != null ==> t.page == s.page
    ensures s.page.bs.Valid() && s.page.Bits() == ResetRange(old(s.page.Bits()), start, start + n)
    ensures t.page == null <==> NoneSet(s.page.Bits())
  {
    var newLf;
    newLf, diff := s.page.Free(start, n, s.longestFree);
    CountZeroExtremes(s.page.Bits());
    if s.page.numFree == bmSz {
      t := Segment(null, bmSz);
    } else {
      t := Segment(s.page, newLf);
    }
  }

  /** Segment::num_allocated: the busy slots of its page, 0 without one. */
  method SegmentNumAllocated(s: Segment) returns (r: nat)
    requires s.page != null ==> s.page.Valid()
    ensures r == Allocated(s) && (s.page != null ==> r == CountTrue(s.page.Bits()))
  {
    if s.page == null {
      return 0;
    }
    r := s.page.NumAllocated();
  }
}
