/**
 * The segment tree of spp_alloc.h: a vector of Segments laid out as a
 * binary heap (node k has children 2k and 2k+1, the leaves are the
 * segments that own pages) in which every inner node holds the largest
 * longest_free below it, so that an allocation of n slots can walk down to
 * the leftmost page that has a free run of n.
 */
module SppSegTree {
  import opened Words
  import opened BitSpec
  import opened SppBitset
  import opened SppAlloc

  /** _mymax: the larger of two longest_free values. */
  function Max(a: nat, b: nat): (r: nat)
    ensures r >= a && r >= b && (r == a || r == b)
  {
    if a > b then a else b
  }

  /** _num_seg is 2 at construction and only ever doubles. */
  ghost predicate IsPow2(n: nat)
  {
    n == 1 || (n >= 2 && n % 2 == 0 && IsPow2(n / 2))
  }

  /** An inner node holds the larger longest_free of its two children. */
  ghost predicate HeapAt(a: seq<Segment>, k: nat)
    requires 2 * k + 1 < |a|
  {
    a[k].longestFree == Max(a[2 * k].longestFree, a[2 * k + 1].longestFree)
  }

  /** The heap property over the inner nodes 1 .. N-1 of a tree with N leaves. */
  ghost predicate HeapOk(a: seq<Segment>, N: nat)
    requires |a| == 2 * N
  {
    forall k | 1 <= k < N :: HeapAt(a, k)
  }

  /** The other child of k's parent. */
  function Sibling(k: nat): (r: nat)
    requires k >= 1
    ensures r / 2 == k / 2 && r != k
  {
    if k % 2 == 0 then k + 1 else k - 1
  }

  /** The leaves of node k and those of its two children, w = 2h leaves wide. */
  lemma ChildSpans(k: nat, w: nat, h: nat)
    requires w == 2 * h
    ensures k * w == (2 * k) * h && k * w + h == (2 * k + 1) * h
  {
  }

  /** A product with a factor of at least 2 at least doubles the other. */
  lemma AtLeastDouble(a: nat, h: nat)
    requires h >= 2
    ensures a * h >= 2 * a
  {
  }

  /**
   * One step of the descent: the w leaves of node i, from lo on, are those of
   * its children, w/2 each; below the last inner level, 2i is still inner.
   */
  lemma DescendArith(i: nat, w: nat, lo: nat, N: nat)
    requires IsPow2(w) && w >= 2 && lo == i * w && lo + w <= 2 * N
    ensures w == 2 * (w / 2) && IsPow2(w / 2) && lo == (2 * i) * (w / 2)
    ensures w / 2 >= 2 ==> 2 * i < N
  {
    ChildSpans(i, w, w / 2);
    if w / 2 >= 2 {
      AtLeastDouble(2 * i, w / 2);
    }
  }

  /**
   * The state of the descent at the pair (i, i+1), each with w leaves below,
   * the leaves of i starting at lo: one of the pair has a run of n, and no
   * leaf left of lo has.
   */
  ghost predicate Descent(a: seq<Segment>, N: nat, n: nat, i: nat, w: nat, lo: nat)
    requires |a| == 2 * N
  {
    2 <= i && i % 2 == 0 && IsPow2(w) && lo == i * w
    && N <= lo && lo + 2 * w <= 2 * N && (w >= 2 ==> i < N)
    && (n <= a[i].longestFree || n <= a[i + 1].longestFree)
    && (forall j | N <= j < lo :: a[j].longestFree < n)
  }

  /** The descent starts at the root's children, N/2 leaves below each, with nothing to its left. */
  lemma DescentStart(a: seq<Segment>, N: nat, n: nat)
    requires |a| == 2 * N && 2 <= N && IsPow2(N) && HeapOk(a, N) && n <= a[1].longestFree
    ensures Descent(a, N, n, 2, N / 2, N)
  {
    assert HeapAt(a, 1);
    Pow2Half(N);
  }

  /** The descent ends at a pair of leaves, one leaf wide each, lo being the first of them. */
  lemma DescentEnd(a: seq<Segment>, N: nat, n: nat, i: nat, w: nat, lo: nat)
    requires |a| == 2 * N && Descent(a, N, n, i, w, lo) && N <= i
    ensures N <= i && i + 1 < 2 * N && lo == i
    ensures n <= a[i].longestFree || n <= a[i + 1].longestFree
    ensures forall j | N <= j < i :: a[j].longestFree < n
  {
    assert w == 1;
  }

  /** One step down: to the children of the first of the pair with a run of n. */
  lemma DescendStep(a: seq<Segment>, N: nat, n: nat, i: nat, w: nat, lo: nat)
    requires |a| == 2 * N && HeapOk(a, N) && Descent(a, N, n, i, w, lo) && i < N && N % 2 == 0
    ensures n <= a[i].longestFree ==> Descent(a, N, n, 2 * i, w / 2, lo)
    ensures a[i].longestFree < n ==> Descent(a, N, n, 2 * (i + 1), w / 2, lo + w)
  {
    if a[i].longestFree < n {
      DescendRight(a, N, n, i, w, lo);
    } else {
      assert HeapAt(a, i);
      DescendArith(i, w, lo, N);
    }
  }

  /** The step to the right of the pair: no leaf below i has a run of n, so i+1's children take over. */
  lemma DescendRight(a: seq<Segment>, N: nat, n: nat, i: nat, w: nat, lo: nat)
    requires |a| == 2 * N && HeapOk(a, N) && Descent(a, N, n, i, w, lo) && i < N && N % 2 == 0
    requires a[i].longestFree < n
    ensures Descent(a, N, n, 2 * (i + 1), w / 2, lo + w)
  {
    SubtreeBelow(a, N, i, w, lo);
    NoneBefore(a, n, N, lo, lo + w, a[i].longestFree);
    assert HeapAt(a, i + 1);
    NextSpan(i, w);
    DescendArith(i + 1, w, lo + w, N);
  }

  /** The leaves of node i + 1 start right after the w leaves of node i. */
  lemma NextSpan(i: nat, w: nat)
    ensures (i + 1) * w == i * w + w
  {
  }

  /** No leaf before lo has a run of n, nor any of those up to hi, whose runs are at most x < n. */
  lemma NoneBefore(a: seq<Segment>, n: nat, N: nat, lo: nat, hi: nat, x: nat)
    requires lo <= hi <= |a| && x < n
    requires forall j | N <= j < lo :: a[j].longestFree < n
    requires forall j | lo <= j < hi :: a[j].longestFree <= x
    ensures forall j | N <= j < hi :: a[j].longestFree < n
  {
  }

  /** The pair of children of the parent p, one of which is c. */
  lemma ParentKept(a: seq<Segment>, p: nat, c: nat, last: nat)
    requires 1 <= p && 2 * p + 1 < |a| && (c == 2 * p || c == 2 * p + 1)
    requires a[p].longestFree == Max(last, a[Sibling(c)].longestFree) && a[c].longestFree <= last
    requires a[p].longestFree <= Max(a[2 * p].longestFree, a[2 * p + 1].longestFree)
    ensures HeapAt(a, p)
  {
  }

  /** No leaf in the w leaves below node k (those from k*w on) has more than node k. */
  lemma {:induction false} SubtreeBelow(a: seq<Segment>, N: nat, k: nat, w: nat, lo: nat)
    requires |a| == 2 * N && HeapOk(a, N)
    requires 1 <= k && IsPow2(w) && lo == k * w && N <= lo && lo + w <= 2 * N
    requires w == 1 || k < N
    ensures forall j | lo <= j < lo + w :: a[j].longestFree <= a[k].longestFree
    decreases w
  {
    if w > 1 {
      assert HeapAt(a, k);
      var h := w / 2;
      ChildSpans(k, w, h);
      if h > 1 {
        AtLeastDouble(2 * k + 1, h);
      }
      SubtreeBelow(a, N, 2 * k, h, lo);
      SubtreeBelow(a, N, 2 * k + 1, h, lo + h);
    }
  }

  /** Changing one leaf disturbs the heap only at that leaf's parent. */
  lemma LeafChanged(a: seq<Segment>, b: seq<Segment>, N: nat, leaf: nat)
    requires |a| == 2 * N && HeapOk(a, N) && N <= leaf < 2 * N
    requires |b| == |a| && forall k | 0 <= k < |a| && k != leaf :: b[k] == a[k]
    ensures forall k | 1 <= k < N && k != leaf / 2 :: HeapAt(b, k)
    ensures leaf > 1 ==> b[leaf / 2].longestFree == Max(a[leaf].longestFree, b[Sibling(leaf)].longestFree)
  {
    forall k | 1 <= k < N && k != leaf / 2
      ensures HeapAt(b, k)
    {
      assert HeapAt(a, k);
    }
    if leaf > 1 {
      assert HeapAt(a, leaf / 2);
    }
  }

  /**
   * Giving inner node p the larger of its children's values repairs the heap
   * at p and can disturb it only at p's parent, whose value was the larger
   * of p's old value and p's sibling's.
   */
  lemma NodeRepaired(a: seq<Segment>, b: seq<Segment>, N: nat, p: nat)
    requires |a| == 2 * N && 1 <= p < N
    requires forall k | 1 <= k < N && k != p :: HeapAt(a, k)
    requires |b| == |a| && forall k | 0 <= k < |a| && k != p :: b[k] == a[k]
    requires b[p].longestFree == Max(a[2 * p].longestFree, a[2 * p + 1].longestFree)
    ensures forall k | 1 <= k < N && k != p / 2 :: HeapAt(b, k)
    ensures p > 1 ==> b[p / 2].longestFree == Max(a[p].longestFree, b[Sibling(p)].longestFree)
  {
    forall k | 1 <= k < N && k != p / 2
      ensures HeapAt(b, k)
    {
      if k != p {
        assert HeapAt(a, k);
      }
    }
    if p > 1 {
      assert HeapAt(a, p / 2);
    }
  }

  /**
   * Walking up from idx: the heap holds except at idx's parent, which holds
   * the larger of last (idx's value before the walk reached it) and idx's
   * sibling.
   */
  ghost predicate Climb(a: seq<Segment>, N: nat, idx: nat, last: nat)
    requires |a| == 2 * N
  {
    1 <= idx < 2 * N
    && (forall k | 1 <= k < N && k != idx / 2 :: HeapAt(a, k))
    && (idx > 1 ==> a[idx / 2].longestFree == Max(last, a[Sibling(idx)].longestFree))
  }

  /** Since orig, only inner nodes' longest_free changed, and none exceeds bound. */
  ghost predicate Kept(a: seq<Segment>, orig: seq<Segment>, N: nat, bound: nat)
  {
    |a| == 2 * N && |orig| == 2 * N
    && forall k | 0 <= k < 2 * N ::
         a[k].page == orig[k].page && a[k].longestFree <= bound && (N <= k ==> a[k] == orig[k])
  }

  /** The parent of a raised node that is smaller than it takes its value. */
  lemma RaiseStep(a: seq<Segment>, b: seq<Segment>, N: nat, idx: nat, last: nat, orig: seq<Segment>, bound: nat)
    requires |a| == 2 * N && Climb(a, N, idx, last) && last <= a[idx].longestFree && Kept(a, orig, N, bound)
    requires idx > 1 && a[idx / 2].longestFree < a[idx].longestFree
    requires |b| == 2 * N && b[idx / 2] == a[idx / 2].(longestFree := a[idx].longestFree)
    requires forall k | 0 <= k < 2 * N && k != idx / 2 :: b[k] == a[k]
    ensures Climb(b, N, idx / 2, a[idx / 2].longestFree) && a[idx / 2].longestFree <= b[idx / 2].longestFree
    ensures Kept(b, orig, N, bound)
  {
    NodeRepaired(a, b, N, idx / 2);
  }

  /** The walk up stops at the root or at a parent at least as large: a heap. */
  lemma RaiseDone(a: seq<Segment>, N: nat, idx: nat, last: nat)
    requires |a| == 2 * N && Climb(a, N, idx, last) && last <= a[idx].longestFree
    requires idx > 1 ==> a[idx].longestFree <= a[idx / 2].longestFree
    ensures HeapOk(a, N)
  {
    if idx > 1 {
      assert HeapAt(a, idx / 2);
    }
    HeapOkFrom(a, N, idx / 2);
  }

  /** The parent of a lowered pair larger than both takes the larger of the pair. */
  lemma LowerStep(a: seq<Segment>, b: seq<Segment>, N: nat, idx: nat, last: nat, orig: seq<Segment>, bound: nat)
    requires |a| == 2 * N && Climb(a, N, idx, last) && a[idx].longestFree <= last && Kept(a, orig, N, bound)
    requires idx > 1 && Max(a[idx / 2 * 2].longestFree, a[idx / 2 * 2 + 1].longestFree) < a[idx / 2].longestFree
    requires |b| == 2 * N
    requires b[idx / 2] == a[idx / 2].(longestFree := Max(a[idx / 2 * 2].longestFree, a[idx / 2 * 2 + 1].longestFree))
    requires forall k | 0 <= k < 2 * N && k != idx / 2 :: b[k] == a[k]
    ensures Climb(b, N, idx / 2, a[idx / 2].longestFree) && b[idx / 2].longestFree <= a[idx / 2].longestFree
    ensures Kept(b, orig, N, bound)
  {
    NodeRepaired(a, b, N, idx / 2);
  }

  /** The walk stops at a parent no larger than its pair: a heap. */
  lemma LowerDone(a: seq<Segment>, N: nat, idx: nat, last: nat)
    requires |a| == 2 * N && Climb(a, N, idx, last) && a[idx].longestFree <= last
    requires idx > 1 ==> a[idx / 2].longestFree <= Max(a[idx / 2 * 2].longestFree, a[idx / 2 * 2 + 1].longestFree)
    ensures HeapOk(a, N)
  {
    if idx > 1 {
      ParentKept(a, idx / 2, idx, last);
    }
    HeapOkFrom(a, N, idx / 2);
  }

  /** A heap disturbed at most at node p, and not at p either, is a heap. */
  lemma HeapOkFrom(a: seq<Segment>, N: nat, p: nat)
    requires |a| == 2 * N
    requires forall k | 1 <= k < N && k != p :: HeapAt(a, k)
    requires 1 <= p < N ==> HeapAt(a, p)
    ensures HeapOk(a, N)
  {
  }

  /** The heap property reads only the longest_free values. */
  lemma HeapSameValues(a: seq<Segment>, b: seq<Segment>, N: nat)
    requires |a| == 2 * N && |b| == |a| && HeapOk(a, N)
    requires forall k | 0 <= k < |a| :: b[k].longestFree == a[k].longestFree
    ensures HeapOk(b, N)
  {
    forall k | 1 <= k < N
      ensures HeapAt(b, k)
    {
      assert HeapAt(a, k);
    }
  }

  /** A pointer handed out by the tree: a page and the offset of a slot in it. */
  datatype Ptr = Ptr(page: Page, off: nat)

  /** The sum of the per-page allocation counts. */
  function Sum(s: seq<nat>): (r: nat)
  {
    if |s| == 0 then 0 else Sum(s[..|s| - 1]) + s[|s| - 1]
  }

  /**
   * _free as written, on a page left entirely free: the leaf's longest_free
   * rises to bm_sz while diff stays 0, so _update_segment_tree leaves the
   * tree as it was; when the leaf's parent held less, the heap is broken
   * at the parent.
   */
  lemma StaleParentAfterFullFree(a: seq<Segment>, N: nat, idx: nat, t: Segment)
    requires |a| == 2 * N && 2 <= N <= idx < 2 * N
    requires a[idx / 2].longestFree < t.longestFree
    ensures !HeapOk(a[idx := t], N)
  {
    var p := idx / 2;
    assert a[idx := t][p] == a[p] && a[idx := t][idx] == t;
    assert !HeapAt(a[idx := t], p);
  }

  /**
   * A tree of two leaves of 64 slots where it happens: leaf 2 holds a page
   * with one busy slot, leaf 3 a page whose longest run is 1; freeing leaf
   * 2's slot releases its page. (Only the longest_free values matter to the
   * heap, so the pages are left out.)
   */
  lemma StaleParentExample()
    ensures var a := [Segment(null, 64), Segment(null, 63), Segment(null, 63), Segment(null, 1)];
      HeapOk(a, 2) && !HeapOk(a[2 := Segment(null, 64)], 2)
  {
    var a := [Segment(null, 64), Segment(null, 63), Segment(null, 63), Segment(null, 1)];
    assert HeapAt(a, 1);
    StaleParentAfterFullFree(a, 2, 2, Segment(null, 64));
  }

  /** Changing one count changes the sum by the same amount. */
  lemma {:induction false} SumUpdate(s: seq<nat>, i: nat, v: nat)
    requires i < |s|
    ensures Sum(s[i := v]) + s[i] == Sum(s) + v
    decreases |s|
  {
    var t := s[i := v];
    if i < |s| - 1 {
      assert t[..|t| - 1] == s[..|s| - 1][i := v];
      SumUpdate(s[..|s| - 1], i, v);
    } else {
      assert t[..|t| - 1] == s[..|s| - 1];
    }
  }

  /** Counts of zero in front add nothing. */
  lemma {:induction false} SumZerosFirst(z: seq<nat>, s: seq<nat>)
    requires forall k | 0 <= k < |z| :: z[k] == 0
    ensures Sum(z + s) == Sum(s)
    decreases |s|
  {
    if |s| == 0 {
      assert z + s == z;
      SumZeros(z);
    } else {
      assert (z + s)[..|z + s| - 1] == z + s[..|s| - 1];
      SumZerosFirst(z, s[..|s| - 1]);
    }
  }

  /** Counts that are all zero sum to zero. */
  lemma {:induction false} SumZeros(z: seq<nat>)
    requires forall k | 0 <= k < |z| :: z[k] == 0
    ensures Sum(z) == 0
    decreases |z|
  {
    if |z| > 0 {
      SumZeros(z[..|z| - 1]);
    }
  }

  /** A segment whose page, if any, is valid and has want slots in use. */
  ghost predicate Tallied(s: Segment, want: nat)
    reads PageRepr(s)
  {
    (s.page != null ==> s.page.Valid()) && Allocated(s) == want
  }

  /** Inner nodes hold no page; each leaf's page has its count of slots in use. */
  lemma LeavesTallied(a: seq<Segment>, c: seq<nat>, m: map<Page, nat>, total: nat, N: nat,
                      bmSz: nat, maxLf: nat, R: set<object>)
    requires TreeInv(a, c, m, total, N, bmSz, maxLf, R)
    ensures forall k | 0 <= k < N :: Tallied(a[k], 0)
    ensures forall k | N <= k < 2 * N :: Tallied(a[k], c[k - N])
  {
    forall k | 0 <= k < N
      ensures Tallied(a[k], 0)
    {
      assert NodeOk(a, N, bmSz, k);
    }
    forall k | N <= k < 2 * N
      ensures Tallied(a[k], c[k - N])
    {
      assert LeafOk(a, c, N, bmSz, maxLf, R, k);
    }
  }

  /** The loop of validate(): the slots in use of every segment, inner nodes included, add up to the leaves' counts. */
  method SumSegments(a: array<Segment>, ghost c: seq<nat>, N: nat) returns (total: nat)
    requires a.Length == 2 * N && |c| == N
    requires forall k | 0 <= k < N :: Tallied(a[k], 0)
    requires forall k | N <= k < 2 * N :: Tallied(a[k], c[k - N])
    ensures total == Sum(c)
  {
    total := 0;
    var i := 0;
    while i < a.Length
      invariant i <= a.Length
      invariant total == if i <= N then 0 else Sum(c[..i - N])
    {
      if i < N {
        assert Tallied(a[i], 0);
      } else {
        assert Tallied(a[i], c[i - N]);
        assert c[..i + 1 - N][..i - N] == c[..i - N];
      }
      var k := SegmentNumAllocated(a[i]);
      total := total + k;
      i := i + 1;
    }
    assert c[..N] == c;
  }

  /** The slots of a page as the tree's owner sees them: a page not yet in use is all free. */
  ghost function PageBefore(m: map<Page, seq<bool>>, p: Page, bmSz: nat): (b: seq<bool>)
    ensures p in m ==> b == m[p]
    ensures p !in m ==> |b| == bmSz && NoneSet(b)
  {
    if p in m then m[p] else seq(bmSz, _ => false)
  }

  /**
   * The shape of the segment vector: the heap over the inner nodes, no
   * longest_free above a page, and pages only at the leaves.
   */
  ghost predicate TreeOk(a: seq<Segment>, N: nat, bmSz: nat)
  {
    |a| == 2 * N && HeapOk(a, N)
    && forall k {:trigger NodeOk(a, N, bmSz, k)} | 0 <= k < 2 * N :: NodeOk(a, N, bmSz, k)
  }

  /** Node k holds no more than a page, and a page only if it is a leaf. */
  ghost predicate NodeOk(a: seq<Segment>, N: nat, bmSz: nat, k: nat)
    requires k < |a|
  {
    a[k].longestFree <= bmSz && (k < N ==> a[k].page == null)
  }

  /**
   * m2 is m after n slots from p were taken: they lie in the page and were
   * free (a page new to m being all free), and nothing else changed.
   */
  ghost predicate Took(m: map<Page, seq<bool>>, m2: map<Page, seq<bool>>, p: Ptr, n: nat, bmSz: nat)
  {
    var b := PageBefore(m, p.page, bmSz);
    p.off + n <= |b| && NoneIn(b, p.off, p.off + n) && m2 == m[p.page := SetRange(b, p.off, p.off + n)]
  }

  /**
   * m2 is m after the busy block of n slots at p was freed: the page keeps
   * its other slots, and leaves m once none of its slots is busy.
   */
  ghost predicate Freed(m: map<Page, seq<bool>>, m2: map<Page, seq<bool>>, p: Ptr, n: nat)
  {
    p.page in m && p.off + n <= |m[p.page]| && AllIn(m[p.page], p.off, p.off + n)
    && var r := ResetRange(m[p.page], p.off, p.off + n);
       m2 == if NoneSet(r) then m - {p.page} else m[p.page := r]
  }

  /**
   * A page's bitmap after the busy block of oldSz slots at start grew to
   * newSz slots from r: after itself when r is start, before itself
   * otherwise.
   */
  function Grown(b: seq<bool>, start: nat, oldSz: nat, newSz: nat, r: nat): (g: seq<bool>)
    requires oldSz < newSz && start + oldSz <= |b| && r <= start
    requires r == start ==> start + newSz <= |b|
    ensures |g| == |b|
  {
    if r == start then SetRange(b, start + oldSz, start + newSz) else SetRange(b, r, start)
  }

  /** The bitmaps U2 are U after the busy block of n slots at start in page was freed. */
  lemma FreedBy(U: map<Page, seq<bool>>, U2: map<Page, seq<bool>>, page: Page, start: nat, n: nat)
    requires page in U && start + n <= |U[page]| && AllIn(U[page], start, start + n)
    requires var r := ResetRange(U[page], start, start + n);
      U2 == if NoneSet(r) then U - {page} else U[page := r]
    ensures Freed(U, U2, Ptr(page, start), n)
  {
  }

  /** Different leaves hold different pages, with different bitmaps. */
  ghost predicate Distinct(a: seq<Segment>, N: nat)
    requires |a| == 2 * N
  {
    forall k, j {:trigger Apart(a, k, j)} | N <= k < 2 * N && N <= j < 2 * N && k != j :: Apart(a, k, j)
  }

  /** Leaves k and j, when both hold a page, hold different pages with different bitmaps. */
  ghost predicate Apart(a: seq<Segment>, k: nat, j: nat)
    requires k < |a| && j < |a|
  {
    a[k].page != null && a[j].page != null ==> a[k].page != a[j].page && a[k].page.bs.words != a[j].page.bs.words
  }

  /** _seg_pages names exactly the leaves that hold a page, with their index. */
  ghost predicate IndexOk(a: seq<Segment>, m: map<Page, nat>, N: nat)
    requires |a| == 2 * N
  {
    (forall p | p in m :: N <= m[p] < 2 * N && a[m[p]].page == p)
    && (forall k {:trigger Listed(a, m, k)} | N <= k < 2 * N :: Listed(a, m, k))
  }

  /** The page of leaf k, if any, is in the index. */
  ghost predicate Listed(a: seq<Segment>, m: map<Page, nat>, k: nat)
    requires k < |a|
  {
    a[k].page != null ==> a[k].page in m
  }

  /** Leaf k keeps its promise about its longest_free and is counted. */
  ghost predicate LeafOk(a: seq<Segment>, c: seq<nat>, N: nat, bmSz: nat, maxLf: nat, R: set<object>, k: nat)
    reads R
    requires |a| == 2 * N && |c| == N && N <= k < 2 * N
  {
    PageRepr(a[k]) <= R && SegOk(a[k], bmSz, maxLf) && c[k - N] == Allocated(a[k])
    && (a[k].page != null ==> 0 < c[k - N])
  }

  /**
   * Every leaf keeps its promise. (The quantifier fires only where a leaf's
   * promise is asked about, not at every index into the leaves.)
   */
  ghost predicate LeavesOk(a: seq<Segment>, c: seq<nat>, N: nat, bmSz: nat, maxLf: nat, R: set<object>)
    reads R
    requires |a| == 2 * N && |c| == N
  {
    forall k {:trigger LeafOk(a, c, N, bmSz, maxLf, R, k)} | N <= k < 2 * N :: LeafOk(a, c, N, bmSz, maxLf, R, k)
  }

  /** The bitmaps of a set of pages. */
  ghost function BitsOf(ps: set<Page>, R: set<object>): (m: map<Page, seq<bool>>)
    reads R
    requires forall p | p in ps :: p.bs.words in R && p.bs.Valid()
    ensures m.Keys == ps
  {
    map p | p in ps :: p.Bits()
  }

  /**
   * What the segment vector promises without looking into the pages: the
   * tree's shape, the index, different pages at different leaves, and the
   * counts adding up to total.
   */
  ghost predicate Shape(a: seq<Segment>, c: seq<nat>, m: map<Page, nat>, total: nat, N: nat, bmSz: nat)
  {
    |a| == 2 * N && |c| == N && total == Sum(c) && TreeOk(a, N, bmSz) && IndexOk(a, m, N) && Distinct(a, N)
  }

  /** Shape, and every listed page valid and every leaf keeping its promise, inside the footprint R. */
  ghost predicate TreeInv(a: seq<Segment>, c: seq<nat>, m: map<Page, nat>, total: nat, N: nat,
                          bmSz: nat, maxLf: nat, R: set<object>)
    reads R
  {
    Shape(a, c, m, total, N, bmSz)
    && (forall p | p in m :: p.bs.words in R && p.bs.Valid())
    && LeavesOk(a, c, N, bmSz, maxLf, R)
  }

  /**
   * _seg_pages after leaf idx's page went from p to q: a page the leaf
   * gained is entered, a page it released is erased.
   */
  function Reindex(m: map<Page, nat>, p: Page?, q: Page?, idx: nat): (m2: map<Page, nat>)
    ensures p == q ==> m2 == m
    ensures q != null ==> q in m2 || q !in m
  {
    if p == null && q != null then m[q := idx]
    else if p != null && q == null then m - {p}
    else m
  }

  /**
   * The page q that leaf idx holds after a segment operation: its old page,
   * none, or a page new to the tree, unlike the page of any other leaf.
   */
  ghost predicate LeafMove(a: seq<Segment>, m: map<Page, nat>, N: nat, idx: nat, q: Page?)
    requires |a| == 2 * N && N <= idx < 2 * N
  {
    q == a[idx].page || q == null
    || (a[idx].page == null && q !in m
        && forall k | N <= k < 2 * N && k != idx && a[k].page != null ::
             a[k].page != q && a[k].page.bs.words != q.bs.words)
  }

  /**
   * The invariant after leaf idx of a took the segment t, whose page now
   * holds cnt busy slots: b is a with t at idx and the tree above repaired,
   * and the index follows the leaf's page.
   */
  lemma LeafStored(a: seq<Segment>, b: seq<Segment>, c: seq<nat>, c2: seq<nat>, m: map<Page, nat>, m2: map<Page, nat>,
                   total: nat, total2: nat, cnt: nat, N: nat, bmSz: nat, maxLf: nat, R2: set<object>, idx: nat, t: Segment)
    requires Shape(a, c, m, total, N, bmSz) && N <= idx < 2 * N
    requires c2 == c[idx - N := cnt] && total2 + c[idx - N] == total + cnt
    requires TreeOk(b, N, bmSz) && b[idx] == t && forall k | N <= k < 2 * N && k != idx :: b[k] == a[k]
    requires m2 == Reindex(m, a[idx].page, t.page, idx) && LeafMove(a, m, N, idx, t.page)
    requires forall p | p in m2 :: p.bs.words in R2 && p.bs.Valid()
    requires LeavesOk(a[idx := t], c2, N, bmSz, maxLf, R2)
    ensures TreeInv(b, c2, m2, total2, N, bmSz, maxLf, R2)
  {
    SumUpdate(c, idx - N, cnt);
    IndexAfterLeaf(a, b, m, m2, N, idx);
    DistinctAfterLeaf(a, b, N, idx);
    LeavesSame(a[idx := t], b, c2, N, bmSz, maxLf, R2);
  }

  /** After leaf idx changed and the heap was repaired, the tree is well shaped. */
  lemma TreeAfterLeaf(a: seq<Segment>, b: seq<Segment>, N: nat, bmSz: nat, idx: nat, t: Segment)
    requires TreeOk(a, N, bmSz) && N <= idx < 2 * N && |b| == 2 * N && HeapOk(b, N) && Kept(b, a[idx := t], N, bmSz)
    ensures TreeOk(b, N, bmSz) && b[idx] == t && forall k | N <= k < 2 * N && k != idx :: b[k] == a[k]
  {
    forall k | 0 <= k < 2 * N
      ensures NodeOk(b, N, bmSz, k)
    {
      assert NodeOk(a, N, bmSz, k);
    }
  }

  /**
   * The index after leaf idx changed: the same page, a page new to the tree
   * entered, or the leaf's page released and removed.
   */
  lemma IndexAfterLeaf(a: seq<Segment>, b: seq<Segment>, m: map<Page, nat>, m2: map<Page, nat>, N: nat, idx: nat)
    requires |a| == 2 * N && |b| == 2 * N && N <= idx < 2 * N && IndexOk(a, m, N) && Distinct(a, N)
    requires forall k | N <= k < 2 * N && k != idx :: b[k].page == a[k].page
    requires m2 == Reindex(m, a[idx].page, b[idx].page, idx)
    requires b[idx].page == a[idx].page || b[idx].page == null || (a[idx].page == null && b[idx].page !in m)
    ensures IndexOk(b, m2, N)
  {
    forall k | N <= k < 2 * N
      ensures Listed(b, m2, k)
    {
      assert Listed(a, m, k);
      if k != idx {
        assert Apart(a, k, idx);
      }
    }
  }

  /** Different pages after leaf idx changed, when a new page there is new to the tree. */
  lemma DistinctAfterLeaf(a: seq<Segment>, b: seq<Segment>, N: nat, idx: nat)
    requires |a| == 2 * N && |b| == 2 * N && N <= idx < 2 * N && Distinct(a, N)
    requires forall k | N <= k < 2 * N && k != idx :: b[k].page == a[k].page
    requires b[idx].page == a[idx].page || b[idx].page == null
          || forall k | N <= k < 2 * N && k != idx && a[k].page != null ::
               a[k].page != b[idx].page && a[k].page.bs.words != b[idx].page.bs.words
    ensures Distinct(b, N)
  {
    forall k, j | N <= k < 2 * N && N <= j < 2 * N && k != j
      ensures Apart(b, k, j)
    {
      assert Apart(a, k, j);
    }
  }

  /** LeavesOk for every leaf but idx. */
  ghost predicate LeavesOkExcept(a: seq<Segment>, c: seq<nat>, N: nat, bmSz: nat, maxLf: nat, R: set<object>, idx: nat)
    reads R
    requires |a| == 2 * N && |c| == N
  {
    forall k {:trigger LeafOk(a, c, N, bmSz, maxLf, R, k)} | N <= k < 2 * N && k != idx ::
      LeafOk(a, c, N, bmSz, maxLf, R, k)
  }

  /** Besides leaf idx, every leaf keeps its promise and every listed page still holds its bitmap in U. */
  ghost predicate OthersAsWere(a: seq<Segment>, c: seq<nat>, m: map<Page, nat>, N: nat, bmSz: nat, maxLf: nat,
                               R: set<object>, idx: nat, U: map<Page, seq<bool>>)
    reads R
    requires |a| == 2 * N && |c| == N && N <= idx < 2 * N
  {
    && LeavesOkExcept(a, c, N, bmSz, maxLf, R, idx)
    && forall p | p in m && p != a[idx].page :: p.bs.words in R && p.bs.Valid() && p in U && p.Bits() == U[p]
  }

  /**
   * The leaves a with counts c, the index m and the footprint R before leaf
   * idx's page changed. (The two-state lemma below takes them as a single
   * argument.)
   */
  datatype LeafFrame = LeafFrame(a: seq<Segment>, c: seq<nat>, m: map<Page, nat>, N: nat,
                                 bmSz: nat, maxLf: nat, R: set<object>, idx: nat)

  /** Only leaf idx's page changed: the other leaves keep their promises and counts. */
  twostate lemma OthersKept(g: LeafFrame)
    requires |g.a| == 2 * g.N && |g.c| == g.N && g.N <= g.idx < 2 * g.N
    requires old(LeavesOk(g.a, g.c, g.N, g.bmSz, g.maxLf, g.R)) && Distinct(g.a, g.N)
    requires forall o | o in g.R && o !in PageRepr(g.a[g.idx]) :: unchanged(o)
    ensures LeavesOkExcept(g.a, g.c, g.N, g.bmSz, g.maxLf, g.R, g.idx)
  {
    forall k | g.N <= k < 2 * g.N && k != g.idx
      ensures LeafOk(g.a, g.c, g.N, g.bmSz, g.maxLf, g.R, k)
    {
      var s := g.a[k];
      assert old(LeafOk(g.a, g.c, g.N, g.bmSz, g.maxLf, g.R, k)) && Apart(g.a, k, g.idx);
      if s.page != null {
        PageKept(s);
      }
    }
  }

  /** Only leaf idx's page changed: the other listed pages keep their bitmaps. */
  twostate lemma OtherBitsKept(g: LeafFrame)
    requires |g.a| == 2 * g.N && |g.c| == g.N && g.N <= g.idx < 2 * g.N
    requires old(LeavesOk(g.a, g.c, g.N, g.bmSz, g.maxLf, g.R)) && Distinct(g.a, g.N) && IndexOk(g.a, g.m, g.N)
    requires forall o | o in g.R && o !in PageRepr(g.a[g.idx]) :: unchanged(o)
    ensures forall p | p in g.m && p != g.a[g.idx].page ::
      p.bs.words in g.R && p.bs.Valid() && p.Bits() == old(p.Bits())
  {
    forall p | p in g.m && p != g.a[g.idx].page
      ensures p.bs.words in g.R && p.bs.Valid() && p.Bits() == old(p.Bits())
    {
      var s := g.a[g.m[p]];
      assert old(LeafOk(g.a, g.c, g.N, g.bmSz, g.maxLf, g.R, g.m[p]));
      if g.m[p] != g.idx {
        assert Apart(g.a, g.m[p], g.idx);
      }
      PageKept(s);
    }
  }

  /** A segment whose page and bitmap were not touched keeps its promise. */
  twostate lemma PageKept(s: Segment)
    requires s.page != null && unchanged(s.page) && unchanged(s.page.bs.words)
    ensures old(s.page.Inv(s.longestFree)) ==> s.page.Inv(s.longestFree)
    ensures Allocated(s) == old(Allocated(s))
    ensures s.page.bs.Valid() ==> s.page.Bits() == old(s.page.Bits())
  {
  }

  /** The bitmaps after n slots from off in page, free in before, were taken. */
  lemma TookAfter(m: map<Page, seq<bool>>, page: Page, off: nat, n: nat, bmSz: nat, before: seq<bool>, after: seq<bool>)
    requires before == PageBefore(m, page, bmSz) && off + n <= |before| && NoneIn(before, off, off + n)
    requires after == SetRange(before, off, off + n)
    ensures Took(m, m[page := after], Ptr(page, off), n, bmSz)
  {
  }

  /**
   * Segment::allocate on leaf g.idx of the leaves g.a, whose pages have the
   * bitmaps U: on failure nothing changed; on success the leaf's page took n
   * free slots, and the other leaves and pages are as they were.
   */
  method LeafAllocate(s: Segment, n: nat, bmSz: nat, maxLf: nat, ghost g: LeafFrame, ghost U: map<Page, seq<bool>>)
      returns (t: Segment, res: Option<nat>, diff: int)
    requires PageShape(bmSz, maxLf) && 1 <= n && g.bmSz == bmSz && g.maxLf == maxLf
    requires |g.a| == 2 * g.N && |g.c| == g.N && g.N <= g.idx < 2 * g.N && s == g.a[g.idx]
    requires LeavesOk(g.a, g.c, g.N, bmSz, maxLf, g.R) && IndexOk(g.a, g.m, g.N) && Distinct(g.a, g.N)
    requires forall p | p in g.m :: p.bs.words in g.R && p.bs.Valid()
    requires U == BitsOf(g.m.Keys, g.R)
    modifies PageRepr(s)
    ensures res.Some? <==> n <= s.longestFree
    ensures res.None? ==> LeavesOk(g.a, g.c, g.N, bmSz, maxLf, g.R) && BitsOf(g.m.Keys, g.R) == U
    ensures res.Some? ==>
      && t.page != null && SegOk(t, bmSz, maxLf) && diff == t.longestFree - s.longestFree
      && Allocated(t) == g.c[g.idx - g.N] + n
      && var b := PageBefore(U, t.page, bmSz);
         res.value + n <= |b| && NoneIn(b, res.value, res.value + n)
         && t.page.Bits() == SetRange(b, res.value, res.value + n)
    ensures res.Some? ==>
      && OthersAsWere(g.a, g.c, g.m, g.N, bmSz, maxLf, g.R, g.idx, U)
      && (t.page == s.page || (s.page == null && t.page !in g.R && t.page.bs.words !in g.R))
    ensures res.Some? && s.page == null ==> fresh(t.page) && fresh(t.page.bs.words)
  {
    assert LeafOk(g.a, g.c, g.N, bmSz, maxLf, g.R, g.idx) && Listed(g.a, g.m, g.idx);
    ghost var before, count := SegBits(s, bmSz), Allocated(s);
    t, res, diff := SegmentAllocate(s, n, bmSz, maxLf);
    if res.None? {
      Carried(Held(g.a, g.c, g.N, bmSz, maxLf, g.m.Keys, g.R));
      return;
    }
    assert Allocated(t) == count + n;
    assert before == PageBefore(U, t.page, bmSz);
    OthersKept(g);
    OtherBitsKept(g);
    forall p | p in g.m && p != s.page
      ensures p.Bits() == U[p]
    {
    }
  }

  /**
   * Segment::free on leaf g.idx of the leaves g.a, whose pages have the
   * bitmaps U: the busy block [start, start + n) of the leaf's page is freed
   * and the page released once none of its slots is busy; the other leaves
   * and pages are as they were.
   */
  method LeafFree(s: Segment, start: nat, n: nat, bmSz: nat, maxLf: nat, ghost g: LeafFrame, ghost U: map<Page, seq<bool>>)
      returns (t: Segment, diff: int)
    requires g.bmSz == bmSz && g.maxLf == maxLf
    requires |g.a| == 2 * g.N && |g.c| == g.N && g.N <= g.idx < 2 * g.N && s == g.a[g.idx] && s.page != null
    requires LeavesOk(g.a, g.c, g.N, bmSz, maxLf, g.R) && IndexOk(g.a, g.m, g.N) && Distinct(g.a, g.N)
    requires forall p | p in g.m :: p.bs.words in g.R && p.bs.Valid()
    requires U == BitsOf(g.m.Keys, g.R)
    requires s.page in U && start + n <= |U[s.page]| && AllIn(U[s.page], start, start + n)
    modifies PageRepr(s)
    ensures SegOk(t, bmSz, maxLf) && diff == t.longestFree - s.longestFree
    ensures Allocated(t) + n == g.c[g.idx - g.N] && (t.page == null || t.page == s.page)
    ensures t.page != null ==> 0 < Allocated(t)
    ensures var r := ResetRange(U[s.page], start, start + n);
      (t.page == null <==> NoneSet(r)) && (t.page != null ==> t.page.Bits() == r)
    ensures OthersAsWere(g.a, g.c, g.m, g.N, bmSz, maxLf, g.R, g.idx, U)
  {
    assert LeafOk(g.a, g.c, g.N, bmSz, maxLf, g.R, g.idx);
    ghost var count := Allocated(s);
    t, diff := SegmentFree(s, start, n, bmSz, maxLf);
    assert Allocated(t) + n == count;
    OthersKept(g);
    OtherBitsKept(g);
    forall p | p in g.m && p != s.page
      ensures p.Bits() == U[p]
    {
    }
  }

  /**
   * Segment::extend on leaf g.idx of the leaves g.a, whose pages have the
   * bitmaps U: the busy block of oldSz slots at start grows in place to
   * newSz slots where extend chooses, or nothing changes; the other leaves
   * and pages are as they were.
   */
  method LeafExtend(s: Segment, start: nat, oldSz: nat, newSz: nat, after: bool, bmSz: nat, maxLf: nat,
                    ghost g: LeafFrame, ghost U: map<Page, seq<bool>>)
      returns (t: Segment, res: Option<nat>, diff: int)
    requires g.bmSz == bmSz && g.maxLf == maxLf
    requires |g.a| == 2 * g.N && |g.c| == g.N && g.N <= g.idx < 2 * g.N && s == g.a[g.idx] && s.page != null
    requires LeavesOk(g.a, g.c, g.N, bmSz, maxLf, g.R) && IndexOk(g.a, g.m, g.N) && Distinct(g.a, g.N)
    requires forall p | p in g.m :: p.bs.words in g.R && p.bs.Valid()
    requires U == BitsOf(g.m.Keys, g.R)
    requires s.page in U && 1 <= oldSz < newSz && start + oldSz <= |U[s.page]| && AllIn(U[s.page], start, start + oldSz)
    modifies PageRepr(s)
    ensures SegOk(t, bmSz, maxLf) && diff == t.longestFree - s.longestFree && t.page == s.page
    ensures res == ExtendChoice(U[s.page], start, oldSz, newSz, after, s.longestFree)
    ensures res.None? ==> t == s && t.page.Bits() == U[s.page] && Allocated(t) == g.c[g.idx - g.N]
    ensures res.Some? ==>
      && Allocated(t) == g.c[g.idx - g.N] + (newSz - oldSz)
      && t.page.Bits() == Grown(U[s.page], start, oldSz, newSz, res.value)
    ensures OthersAsWere(g.a, g.c, g.m, g.N, bmSz, maxLf, g.R, g.idx, U)
  {
    assert LeafOk(g.a, g.c, g.N, bmSz, maxLf, g.R, g.idx);
    ghost var count := Allocated(s);
    t, res, diff := SegmentExtend(s, start, oldSz, newSz, after, bmSz, maxLf);
    assert res.Some? ==> Allocated(t) == count + (newSz - oldSz);
    OthersKept(g);
    OtherBitsKept(g);
    forall p | p in g.m && p != s.page
      ensures p.Bits() == U[p]
    {
    }
  }

  /**
   * Segment::shrink on leaf g.idx of the leaves g.a, whose pages have the
   * bitmaps U: the tail of the busy block of oldSz slots at start is freed
   * down to newSz slots; the other leaves and pages are as they were.
   */
  method LeafShrink(s: Segment, start: nat, oldSz: nat, newSz: nat, bmSz: nat, maxLf: nat,
                    ghost g: LeafFrame, ghost U: map<Page, seq<bool>>)
      returns (t: Segment, res: nat, diff: int)
    requires g.bmSz == bmSz && g.maxLf == maxLf
    requires |g.a| == 2 * g.N && |g.c| == g.N && g.N <= g.idx < 2 * g.N && s == g.a[g.idx] && s.page != null
    requires LeavesOk(g.a, g.c, g.N, bmSz, maxLf, g.R) && IndexOk(g.a, g.m, g.N) && Distinct(g.a, g.N)
    requires forall p | p in g.m :: p.bs.words in g.R && p.bs.Valid()
    requires U == BitsOf(g.m.Keys, g.R)
    requires s.page in U && 1 <= newSz < oldSz && start + oldSz <= |U[s.page]| && AllIn(U[s.page], start, start + oldSz)
    modifies PageRepr(s)
    ensures SegOk(t, bmSz, maxLf) && diff == t.longestFree - s.longestFree && t.page == s.page && res == start
    ensures Allocated(t) + (oldSz - newSz) == g.c[g.idx - g.N] && 0 < Allocated(t)
    ensures t.page.Bits() == ResetRange(U[s.page], start + newSz, start + oldSz)
    ensures OthersAsWere(g.a, g.c, g.m, g.N, bmSz, maxLf, g.R, g.idx, U)
  {
    assert LeafOk(g.a, g.c, g.N, bmSz, maxLf, g.R, g.idx);
    ghost var count := Allocated(s);
    t, res, diff := SegmentShrink(s, start, oldSz, newSz, bmSz, maxLf);
    assert Allocated(t) + (oldSz - newSz) == count;
    BusyLeft(t.page.Bits(), start);
    OthersKept(g);
    OtherBitsKept(g);
    forall p | p in g.m && p != s.page
      ensures p.Bits() == U[p]
    {
    }
  }

  /** A bitmap with a busy slot has fewer free slots than slots. */
  lemma BusyLeft(b: seq<bool>, i: nat)
    requires i < |b| && b[i]
    ensures CountZero(b) < |b|
  {
    CountZeroExtremes(b);
  }

  /** The leaves after leaf idx was replaced by one that keeps its promise. */
  lemma LeavesJoin(a: seq<Segment>, b: seq<Segment>, c: seq<nat>, c2: seq<nat>, N: nat,
                   bmSz: nat, maxLf: nat, R: set<object>, R2: set<object>, idx: nat)
    requires |a| == 2 * N && |b| == 2 * N && |c| == N && |c2| == N && N <= idx < 2 * N
    requires LeavesOkExcept(a, c, N, bmSz, maxLf, R, idx) && R <= R2
    requires forall k | N <= k < 2 * N && k != idx :: b[k] == a[k] && c2[k - N] == c[k - N]
    requires PageRepr(b[idx]) <= R2 && SegOk(b[idx], bmSz, maxLf) && c2[idx - N] == Allocated(b[idx])
    requires b[idx].page != null ==> 0 < c2[idx - N]
    ensures LeavesOk(b, c2, N, bmSz, maxLf, R2)
  {
    forall k | N <= k < 2 * N
      ensures LeafOk(b, c2, N, bmSz, maxLf, R2, k)
    {
      if k != idx {
        assert LeafOk(a, c, N, bmSz, maxLf, R, k);
      }
    }
  }

  /**
   * Leaves a with counts c and pages ps, all inside the footprint R. (The
   * two-state lemma below takes them as a single argument.)
   */
  datatype Held = Held(a: seq<Segment>, c: seq<nat>, N: nat, bmSz: nat, maxLf: nat, ps: set<Page>, R: set<object>)

  /** Nothing inside R changed: the leaves keep their promises and the pages their bitmaps. */
  twostate lemma Carried(g: Held)
    requires |g.a| == 2 * g.N && |g.c| == g.N
    requires forall p | p in g.ps :: p.bs.words in g.R && p.bs.Valid()
    requires old(LeavesOk(g.a, g.c, g.N, g.bmSz, g.maxLf, g.R))
    requires forall o | o in g.R :: unchanged(o)
    ensures LeavesOk(g.a, g.c, g.N, g.bmSz, g.maxLf, g.R)
    ensures BitsOf(g.ps, g.R) == old(BitsOf(g.ps, g.R))
  {
    forall k | g.N <= k < 2 * g.N
      ensures LeafOk(g.a, g.c, g.N, g.bmSz, g.maxLf, g.R, k)
    {
      var s := g.a[k];
      assert old(LeafOk(g.a, g.c, g.N, g.bmSz, g.maxLf, g.R, k));
      if s.page != null {
        PageKept(s);
      }
    }
    var m, m2 := old(BitsOf(g.ps, g.R)), BitsOf(g.ps, g.R);
    forall p | p in g.ps
      ensures m2[p] == m[p]
    {
      assert p.bs.Bits() == old(p.bs.Bits());
    }
  }

  /** LeavesOk looks at the leaves only. */
  lemma LeavesSame(x: seq<Segment>, y: seq<Segment>, c: seq<nat>, N: nat, bmSz: nat, maxLf: nat, R: set<object>)
    requires |x| == 2 * N && |y| == 2 * N && |c| == N && forall k | N <= k < 2 * N :: y[k] == x[k]
    requires LeavesOk(x, c, N, bmSz, maxLf, R)
    ensures LeavesOk(y, c, N, bmSz, maxLf, R)
  {
    forall k | N <= k < 2 * N
      ensures LeafOk(y, c, N, bmSz, maxLf, R, k)
    {
      assert LeafOk(x, c, N, bmSz, maxLf, R, k);
    }
  }

  /**
   * The bitmaps after page x changed or entered: every other page of ps2
   * is one of ps with its bitmap from m.
   */
  lemma BitsJoin(ps: set<Page>, ps2: set<Page>, m: map<Page, seq<bool>>, R2: set<object>, x: Page)
    requires forall p | p in ps2 :: p.bs.words in R2 && p.bs.Valid()
    requires ps == m.Keys && x in ps2 && ps2 - {x} == ps - {x}
    requires forall p | p in ps2 && p != x :: p in ps && p.Bits() == m[p]
    ensures BitsOf(ps2, R2) == m[x := x.Bits()]
  {
    var m2 := BitsOf(ps2, R2);
    forall p | p in ps && p != x
      ensures p in ps2 && m2[p] == m[p]
    {
      assert p in ps - {x};
    }
    assert ps2 == (ps2 - {x}) + {x};
    assert m2 == m[x := x.Bits()];
  }

  /** The bitmaps after page x left the pages ps: the others keep theirs from m. */
  lemma BitsDrop(ps: set<Page>, ps2: set<Page>, m: map<Page, seq<bool>>, R2: set<object>, x: Page)
    requires forall p | p in ps2 :: p.bs.words in R2 && p.bs.Valid()
    requires ps == m.Keys && ps2 == ps - {x}
    requires forall p | p in ps2 :: p.Bits() == m[p]
    ensures BitsOf(ps2, R2) == m - {x}
  {
  }

  /**
   * The facts SetLeaf needs, gathered from the tree before leaf idx takes
   * the segment t, whose page (if any) holds cnt busy slots.
   */
  lemma LeafReady(a: seq<Segment>, c: seq<nat>, m: map<Page, nat>, total: nat, N: nat, bmSz: nat, maxLf: nat,
                  R: set<object>, U: map<Page, seq<bool>>, idx: nat, t: Segment, cnt: nat)
    requires Shape(a, c, m, total, N, bmSz) && N <= idx < 2 * N
    requires OthersAsWere(a, c, m, N, bmSz, maxLf, R, idx, U)
    requires SegOk(t, bmSz, maxLf) && Allocated(t) == cnt && (t.page != null ==> 0 < cnt)
    requires t.page == a[idx].page || t.page == null || (a[idx].page == null && t.page !in R && t.page.bs.words !in R)
    requires m.Keys == U.Keys
    ensures t.longestFree <= bmSz && LeafMove(a, m, N, idx, t.page)
    ensures LeavesOk(a[idx := t], c[idx - N := cnt], N, bmSz, maxLf, R + PageRepr(t))
    ensures forall p | p in Reindex(m, a[idx].page, t.page, idx) :: p.bs.words in R + PageRepr(t) && p.bs.Valid()
    ensures t.page == null && a[idx].page != null ==>
      BitsOf(Reindex(m, a[idx].page, t.page, idx).Keys, R + PageRepr(t)) == U - {a[idx].page}
    ensures t.page != null ==>
      && BitsOf(Reindex(m, a[idx].page, t.page, idx).Keys, R + PageRepr(t)) == U[t.page := t.page.Bits()]
      && t.page in Reindex(m, a[idx].page, t.page, idx) && Reindex(m, a[idx].page, t.page, idx)[t.page] == idx
  {
    var m2 := Reindex(m, a[idx].page, t.page, idx);
    assert Listed(a, m, idx);
    if t.page == a[idx].page && t.page != null {
      assert m[t.page] != idx ==> Apart(a, m[t.page], idx);
    }
    if a[idx].page == null && t.page != null {
      forall k | N <= k < 2 * N && k != idx && a[k].page != null
        ensures a[k].page != t.page && a[k].page.bs.words != t.page.bs.words
      {
        assert LeafOk(a, c, N, bmSz, maxLf, R, k);
      }
      assert t.page !in m;
    }
    LeavesJoin(a, a[idx := t], c, c[idx - N := cnt], N, bmSz, maxLf, R, R + PageRepr(t), idx);
    if t.page != null {
      BitsJoin(m.Keys, m2.Keys, U, R + PageRepr(t), t.page);
    } else if a[idx].page != null {
      BitsDrop(m.Keys, m2.Keys, U, R + PageRepr(t), a[idx].page);
    }
  }

  /** The first node of the level of node k: the largest power of two not above k. */
  ghost function Level(k: nat): (l: nat)
    ensures IsPow2(l) && 1 <= l && (k >= 1 ==> l <= k < 2 * l)
  {
    if k < 2 then 1 else 2 * Level(k / 2)
  }

  /** Every node of the level that starts at p has p as its level. */
  lemma {:induction false} LevelOf(k: nat, p: nat)
    requires IsPow2(p) && p <= k < 2 * p
    ensures Level(k) == p
    decreases p
  {
    if p >= 2 {
      LevelOf(k / 2, p / 2);
    }
  }

  /** Of two powers of two, one below twice the other is at most that other. */
  lemma {:induction false} Pow2Below(l: nat, n: nat)
    requires IsPow2(l) && IsPow2(n) && l < 2 * n
    ensures l <= n
    decreases n
  {
    if l >= 2 && n >= 2 {
      Pow2Below(l / 2, n / 2);
    }
  }

  /**
   * Where node k of a grown vector comes from: growing moves every old
   * level i (nodes i .. 2i-1) to the second half of the new level 2i, so a
   * node in the second half of its level l held old node k - l; 0 marks a
   * node that starts empty.
   */
  ghost function Src(k: nat): (s: nat)
    ensures s != 0 ==> 2 <= k && Level(k) / 2 <= s < Level(k) && s + Level(k) == k
  {
    if k < 2 || k < Level(k) + Level(k) / 2 then 0 else k - Level(k)
  }

  /** Two nodes of the grown vector never come from the same old node. */
  lemma SrcInj(k: nat, k2: nat)
    requires Src(k) != 0 && Src(k) == Src(k2)
    ensures k == k2
  {
    LevelOf(Src(k), Level(k) / 2);
    LevelOf(Src(k), Level(k2) / 2);
  }

  /** The node x that old node t feeds is the only one. */
  lemma SrcOnce(k: nat, x: nat, t: nat)
    requires Src(x) == t != 0 && k != x
    ensures Src(k) != t
  {
    if Src(k) == t {
      SrcInj(k, x);
    }
  }

  /** The children of a moved node are the moved children of its old node. */
  lemma SrcChildren(k: nat)
    requires 2 <= k
    ensures Src(2 * k) == 2 * Src(k)
    ensures Src(2 * k + 1) == if Src(k) == 0 then 0 else 2 * Src(k) + 1
  {
    LevelOf(2 * k, 2 * Level(k));
    LevelOf(2 * k + 1, 2 * Level(k));
  }

  /** An inner node of the grown vector, 2N leaves wide, comes from an inner node of the old one. */
  lemma SrcInner(k: nat, N: nat)
    requires IsPow2(N) && 1 <= k < 2 * N
    ensures Src(k) < N
  {
    Pow2Below(Level(k), N);
  }

  /** The grown vector's leaves: the first N start empty, the last N are the old leaves in order. */
  lemma SrcLeaf(k: nat, N: nat)
    requires IsPow2(N) && 2 * N <= k < 4 * N
    ensures Src(k) == if k < 3 * N then 0 else k - 2 * N
  {
    Pow2Double(N);
    LevelOf(k, 2 * N);
    assert Level(k) / 2 == N;
  }

  /** The loop of allocate's growth moves old node 2i-j-1 to new node 4i-j-1. */
  lemma SrcStep(i: nat, j: nat)
    requires IsPow2(i) && j < i
    ensures Src(4 * i - j - 1) == 2 * i - j - 1
  {
    var k := 4 * i - j - 1;
    Pow2Double(i);
    assert 2 * i <= k < 2 * (2 * i);
    LevelOf(k, 2 * i);
    assert Level(k) == 2 * i;
    assert !(k < Level(k) + Level(k) / 2);
  }

  /** Twice a power of two is one. */
  lemma Pow2Double(i: nat)
    requires IsPow2(i)
    ensures IsPow2(2 * i)
  {
    assert (2 * i) / 2 == i;
  }

  /** What a new node holds once every old node from t on has moved: old node src, if that is one. */
  ghost function Pick(a: seq<Segment>, src: nat, t: nat, bmSz: nat): Segment
  {
    if src != 0 && t <= src < |a| then a[src] else Segment(null, bmSz)
  }

  /** Node k of the grown vector once every old node from t on has moved. */
  ghost function Moved(a: seq<Segment>, k: nat, t: nat, bmSz: nat): Segment
  {
    Pick(a, Src(k), t, bmSz)
  }

  /** The old node each of the first n new nodes comes from (0: none). */
  ghost function Sources(n: nat): (S: seq<nat>)
    ensures |S| == n
  {
    seq(n, k requires 0 <= k < n => Src(k))
  }

  /** Node k's entry of Sources is its source. */
  lemma SourceAt(n: nat, k: nat)
    requires k < n
    ensures Sources(n)[k] == Src(k)
  {
  }

  /**
   * Every node of s holds what the growth step has put there once the
   * old nodes from t on are moved, S giving each node's source.
   */
  ghost predicate AllMoved(a: seq<Segment>, s: seq<Segment>, S: seq<nat>, t: nat, bmSz: nat)
  {
    |S| == |s| && forall k | 0 <= k < |s| :: s[k] == Pick(a, S[k], t, bmSz)
  }

  /** Before any node moves, an empty vector is what moving none of the 2N old nodes yields. */
  lemma NoneMoved(a: seq<Segment>, s: seq<Segment>, S: seq<nat>, N: nat, bmSz: nat)
    requires |a| == 2 * N && |S| == |s|
    requires forall k | 0 <= k < |s| :: s[k] == Segment(null, bmSz)
    ensures AllMoved(a, s, S, 2 * N, bmSz)
  {
  }

  /** The growth step's move i, j is node 2i-j-1 going to node 4i-j-1, the only one it feeds. */
  lemma MoveTarget(i: nat, j: nat, n: nat)
    requires IsPow2(i) && j < i && 4 * i - j - 1 < n
    ensures var S := Sources(n);
      && S[4 * i - j - 1] == 2 * i - j - 1
      && forall k | 0 <= k < n && k != 4 * i - j - 1 :: S[k] != 2 * i - j - 1
  {
    SrcStep(i, j);
    FeedsOnce(n, 4 * i - j - 1, 2 * i - j - 1);
  }

  /** An old node t that feeds new node x feeds no other one. */
  lemma FeedsOnce(n: nat, x: nat, t: nat)
    requires x < n && Src(x) == t != 0
    ensures Sources(n)[x] == t
    ensures forall k | 0 <= k < n && k != x :: Sources(n)[k] != t
  {
    SourceAt(n, x);
    forall k | 0 <= k < n && k != x
      ensures Sources(n)[k] != t
    {
      SourceAt(n, k);
      SrcOnce(k, x, t);
    }
  }

  /** Half of a power of two from 2 on is one, and halving it loses nothing. */
  lemma Pow2Half(i: nat)
    requires IsPow2(i) && i >= 2
    ensures IsPow2(i / 2) && 2 * (i / 2) == i
  {
  }

  /** One level of the growth step: old nodes i .. 2i-1 move to new nodes 3i .. 4i-1. */
  method MoveLevel(a: seq<Segment>, b: array<Segment>, ghost S: seq<nat>, i: nat, bmSz: nat)
    requires IsPow2(i) && 2 * i <= |a| && 4 * i <= b.Length && S == Sources(b.Length)
    requires AllMoved(a, b[..], S, 2 * i, bmSz)
    modifies b
    ensures AllMoved(a, b[..], S, i, bmSz)
  {
    var j := 0;
    while j < i
      invariant j <= i
      invariant AllMoved(a, b[..], S, 2 * i - j, bmSz)
    {
      ghost var before := b[..];
      b[4 * i - j - 1] := a[2 * i - j - 1];
      MoveTarget(i, j, b.Length);
      MoveStep(a, before, b[..], S, 4 * i - j - 1, 2 * i - j - 1, bmSz);
      j := j + 1;
    }
  }

  /** Node t moved to node x, the only one it feeds, extends the moved part by one. */
  lemma MoveStep(a: seq<Segment>, before: seq<Segment>, after: seq<Segment>, S: seq<nat>, x: nat, t: nat, bmSz: nat)
    requires 0 < t < |a| && x < |before| && AllMoved(a, before, S, t + 1, bmSz)
    requires S[x] == t && forall k | 0 <= k < |S| && k != x :: S[k] != t
    requires after == before[x := a[t]]
    ensures AllMoved(a, after, S, t, bmSz)
  {
    forall k | 0 <= k < |after|
      ensures after[k] == Pick(a, S[k], t, bmSz)
    {
      if k != x {
        assert before[k] == Pick(a, S[k], t + 1, bmSz);
      }
    }
  }

  /** Node 0 never moves, so having moved the old nodes from 1 up is having moved them all. */
  lemma MovedFromOne(a: seq<Segment>, s: seq<Segment>, S: seq<nat>, bmSz: nat)
    requires AllMoved(a, s, S, 1, bmSz)
    ensures AllMoved(a, s, S, 0, bmSz)
  {
  }

  /** The grown vector keeps the shape of a tree, with an empty page's run at the root. */
  lemma GrownShape(a: seq<Segment>, b: seq<Segment>, N: nat, bmSz: nat)
    requires 2 <= N && IsPow2(N) && TreeOk(a, N, bmSz) && |b| == 4 * N
    requires forall k | 0 <= k < 4 * N :: b[k] == Moved(a, k, 0, bmSz)
    ensures TreeOk(b, 2 * N, bmSz) && b[1].longestFree == bmSz
  {
    forall k | 1 <= k < 2 * N
      ensures HeapAt(b, k)
    {
      GrownHeapAt(a, b, N, bmSz, k);
    }
    forall k | 0 <= k < 4 * N
      ensures NodeOk(b, 2 * N, bmSz, k)
    {
      GrownNodeAt(a, b, N, bmSz, k);
    }
    assert b[1] == Moved(a, 1, 0, bmSz);
  }

  /** An inner node of the grown vector holds the larger run of its children. */
  lemma GrownHeapAt(a: seq<Segment>, b: seq<Segment>, N: nat, bmSz: nat, k: nat)
    requires 2 <= N && IsPow2(N) && TreeOk(a, N, bmSz) && |b| == 4 * N && 1 <= k < 2 * N
    requires forall k | 0 <= k < 4 * N :: b[k] == Moved(a, k, 0, bmSz)
    ensures HeapAt(b, k)
  {
    assert b[k] == Moved(a, k, 0, bmSz);
    assert b[2 * k] == Moved(a, 2 * k, 0, bmSz);
    assert b[2 * k + 1] == Moved(a, 2 * k + 1, 0, bmSz);
    if k == 1 {
      LevelOf(2, 2);
      LevelOf(3, 2);
      assert NodeOk(a, N, bmSz, 1);
    } else {
      SrcChildren(k);
      SrcInner(k, N);
      if Src(k) != 0 {
        assert HeapAt(a, Src(k));
      }
    }
  }

  /** A node of the grown vector holds no run above a page, and no page above the leaves. */
  lemma GrownNodeAt(a: seq<Segment>, b: seq<Segment>, N: nat, bmSz: nat, k: nat)
    requires 2 <= N && IsPow2(N) && TreeOk(a, N, bmSz) && |b| == 4 * N && k < 4 * N
    requires forall k | 0 <= k < 4 * N :: b[k] == Moved(a, k, 0, bmSz)
    ensures NodeOk(b, 2 * N, bmSz, k)
  {
    assert b[k] == Moved(a, k, 0, bmSz);
    if Src(k) != 0 {
      assert NodeOk(a, N, bmSz, Src(k));
      if k < 2 * N {
        SrcInner(k, N);
      }
    }
  }

  /** Leaf k of the grown vector: empty in the first half, old leaf k - 2N in the second. */
  lemma GrownLeafAt(a: seq<Segment>, b: seq<Segment>, N: nat, bmSz: nat, k: nat)
    requires IsPow2(N) && |a| == 2 * N && |b| == 4 * N && 2 * N <= k < 4 * N
    requires forall k | 0 <= k < 4 * N :: b[k] == Moved(a, k, 0, bmSz)
    ensures b[k] == if k < 3 * N then Segment(null, bmSz) else a[k - 2 * N]
  {
    SrcLeaf(k, N);
    assert b[k] == Moved(a, k, 0, bmSz);
  }

  /** The grown vector's leaves keep their promises, the new ones counting nothing. */
  lemma GrownLeaves(a: seq<Segment>, b: seq<Segment>, c: seq<nat>, N: nat, bmSz: nat, maxLf: nat, R: set<object>)
    requires IsPow2(N) && |a| == 2 * N && |c| == N && |b| == 4 * N && LeavesOk(a, c, N, bmSz, maxLf, R)
    requires forall k | 0 <= k < 4 * N :: b[k] == Moved(a, k, 0, bmSz)
    ensures LeavesOk(b, Zeros(N) + c, 2 * N, bmSz, maxLf, R)
  {
    var z := Zeros(N) + c;
    forall k | 2 * N <= k < 4 * N
      ensures LeafOk(b, z, 2 * N, bmSz, maxLf, R, k)
    {
      GrownLeafAt(a, b, N, bmSz, k);
      if k >= 3 * N {
        assert LeafOk(a, c, N, bmSz, maxLf, R, k - 2 * N);
        assert z[k - 2 * N] == c[k - 3 * N];
      } else {
        assert z[k - 2 * N] == 0;
      }
    }
  }

  /** Growing keeps different pages at different leaves. */
  lemma GrownDistinct(a: seq<Segment>, b: seq<Segment>, N: nat, bmSz: nat)
    requires IsPow2(N) && |a| == 2 * N && |b| == 4 * N && Distinct(a, N)
    requires forall k | 0 <= k < 4 * N :: b[k] == Moved(a, k, 0, bmSz)
    ensures Distinct(b, 2 * N)
  {
    forall k, j | 2 * N <= k < 4 * N && 2 * N <= j < 4 * N && k != j
      ensures Apart(b, k, j)
    {
      GrownLeafAt(a, b, N, bmSz, k);
      GrownLeafAt(a, b, N, bmSz, j);
      if k >= 3 * N && j >= 3 * N {
        assert Apart(a, k - 2 * N, j - 2 * N);
      }
    }
  }

  /** The rebuilt index names the same pages as the old one. */
  lemma GrownIndex(a: seq<Segment>, b: seq<Segment>, m: map<Page, nat>, m2: map<Page, nat>, N: nat, bmSz: nat)
    requires IsPow2(N) && |a| == 2 * N && |b| == 4 * N && IndexOk(a, m, N) && IndexOk(b, m2, 2 * N)
    requires forall k | 0 <= k < 4 * N :: b[k] == Moved(a, k, 0, bmSz)
    ensures m2.Keys == m.Keys
  {
    forall p | p in m2
      ensures p in m
    {
      GrownPageOld(a, b, m, m2, N, bmSz, p);
    }
    forall p | p in m
      ensures p in m2
    {
      GrownPageNew(a, b, m, m2, N, bmSz, p);
    }
  }

  /** A page the rebuilt index names sits on a moved leaf, so the old index named it too. */
  lemma GrownPageOld(a: seq<Segment>, b: seq<Segment>, m: map<Page, nat>, m2: map<Page, nat>, N: nat, bmSz: nat, p: Page)
    requires IsPow2(N) && |a| == 2 * N && |b| == 4 * N && IndexOk(a, m, N) && IndexOk(b, m2, 2 * N) && p in m2
    requires forall k | 0 <= k < 4 * N :: b[k] == Moved(a, k, 0, bmSz)
    ensures p in m
  {
    var k := m2[p];
    GrownLeafAt(a, b, N, bmSz, k);
    assert b[k].page == p;
    assert Listed(a, m, k - 2 * N);
  }

  /** A page the old index names sits on a leaf that moved, so the rebuilt index names it. */
  lemma GrownPageNew(a: seq<Segment>, b: seq<Segment>, m: map<Page, nat>, m2: map<Page, nat>, N: nat, bmSz: nat, p: Page)
    requires IsPow2(N) && |a| == 2 * N && |b| == 4 * N && IndexOk(a, m, N) && IndexOk(b, m2, 2 * N) && p in m
    requires forall k | 0 <= k < 4 * N :: b[k] == Moved(a, k, 0, bmSz)
    ensures p in m2
  {
    var k := m[p] + 2 * N;
    GrownLeafAt(a, b, N, bmSz, k);
    assert b[k].page == p;
    assert Listed(b, m2, k);
  }

  /** The grown vector, its counts and its rebuilt index keep the tree's invariant, over the same pages. */
  lemma GrownInv(a: seq<Segment>, b: seq<Segment>, c: seq<nat>, m: map<Page, nat>, m2: map<Page, nat>, total: nat,
                 N: nat, bmSz: nat, maxLf: nat, R: set<object>)
    requires 2 <= N && IsPow2(N) && |b| == 4 * N && TreeInv(a, c, m, total, N, bmSz, maxLf, R) && IndexOk(b, m2, 2 * N)
    requires forall k | 0 <= k < 4 * N :: b[k] == Moved(a, k, 0, bmSz)
    ensures TreeInv(b, Zeros(N) + c, m2, total, 2 * N, bmSz, maxLf, R) && m2.Keys == m.Keys && b[1].longestFree == bmSz
  {
    GrownShape(a, b, N, bmSz);
    GrownLeaves(a, b, c, N, bmSz, maxLf, R);
    GrownDistinct(a, b, N, bmSz);
    SumZerosFirst(Zeros(N), c);
    GrownIndex(a, b, m, m2, N, bmSz);
  }

  /** N counts of nothing. */
  function Zeros(N: nat): (z: seq<nat>)
    ensures |z| == N && forall k | 0 <= k < N :: z[k] == 0
  {
    seq(N, _ => 0)
  }

  /** The vector allocate creates before its first page: every node an empty segment. */
  lemma EmptyTree(b: seq<Segment>, c: seq<nat>, N: nat, bmSz: nat, maxLf: nat, R: set<object>)
    requires |b| == 2 * N && |c| == N && forall k | 0 <= k < 2 * N :: b[k] == Segment(null, bmSz)
    requires forall k | 0 <= k < N :: c[k] == 0
    ensures TreeOk(b, N, bmSz) && IndexOk(b, map[], N) && Distinct(b, N) && LeavesOk(b, c, N, bmSz, maxLf, R)
  {
    forall k | 0 <= k < 2 * N
      ensures NodeOk(b, N, bmSz, k) && (N <= k ==> Listed(b, map[], k) && LeafOk(b, c, N, bmSz, maxLf, R, k))
    {
    }
    forall k, j | N <= k < 2 * N && N <= j < 2 * N && k != j
      ensures Apart(b, k, j)
    {
    }
  }

  class SegTree {
    /** bm_sz: the slots of one page. */
    const bmSz: nat
    /** Page<bm_sz>::max_lf. */
    const maxLf: nat
    /** _num_allocated */
    var numAllocated: nat
    /** _num_seg: the number of leaves. */
    var numSeg: nat
    /** _seg: node k at index k, leaves at numSeg .. 2*numSeg-1; empty when no page is live. */
    var seg: array<Segment>
    /** _seg_pages: the leaf that owns each live page. */
    var segPages: map<Page, nat>
    /** _num_extend_tries */
    var numExtendTries: nat
    /** _num_extend_successes */
    var numExtendSuccesses: nat
    /** num_allocated() of each leaf, leaf numSeg + i at i. */
    ghost var counts: seq<nat>
    /** The live pages and their bitmaps. */
    ghost var Repr: set<object>

    ghost predicate Valid()
      reads this, seg, Repr
    {
      PageShape(bmSz, maxLf) && 2 <= numSeg && IsPow2(numSeg) && this !in Repr && seg !in Repr
      && (seg.Length == 0 ==>
            |counts| == numSeg && numAllocated == Sum(counts) && segPages == map[]
            && forall i | 0 <= i < numSeg :: counts[i] == 0)
      && (seg.Length != 0 ==>
            seg.Length == 2 * numSeg && TreeInv(seg[..], counts, segPages, numAllocated, numSeg, bmSz, maxLf, Repr))
    }

    /** The bitmap of every live page. */
    ghost function Used(): (m: map<Page, seq<bool>>)
      reads this, seg, Repr
      requires Valid()
      ensures m.Keys == segPages.Keys
    {
      if seg.Length == 0 then map[] else BitsOf(segPages.Keys, Repr)
    }

    /** SegTree(): two leaves, no segment vector and no page yet. */
    constructor (size: nat, maxRun: nat)
      requires PageShape(size, maxRun)
      ensures Valid() && Used() == map[] && numAllocated == 0 && bmSz == size && maxLf == maxRun
      ensures fresh(Repr)
    {
      bmSz, maxLf := size, maxRun;
      numAllocated, numSeg := 0, 2;
      numExtendTries, numExtendSuccesses := 0, 0;
      seg := new Segment[0];
      segPages := map[];
      counts := [0, 0];
      Repr := {};
    }

    /**
     * allocate(n, hint): n slots from the page of hint when the hint search
     * finds that page and it can take them; otherwise from the leftmost page
     * with a run of n, after growing the tree when even its root has none.
     * The vector is created, all empty, on the first call. Page addresses
     * are not modelled: hintLast says whether the hint lies in the
     * highest-addressed live page, where upper_bound finds no page above it
     * and the hint goes unused.
     */
    method Allocate(n: nat, hint: Option<Ptr>, hintLast: bool) returns (res: Ptr)
      requires Valid() && 1 <= n <= bmSz
      modifies this, seg, Repr
      ensures Valid() && fresh(Repr - old(Repr)) && (seg == old(seg) || fresh(seg))
      ensures Took(old(Used()), Used(), res, n, bmSz) && numAllocated == old(numAllocated) + n
      ensures (hint.Some? && !hintLast && hint.value.page in old(Used()) && hint.value.off < bmSz
               && n <= old(PageLf(hint.value.page))) ==> res.page == hint.value.page
    {
      ghost var U := Used();
      if seg.Length == 0 {
        Prepare();
        assert U == map[] == Used();
      }
      res := AllocateLive(n, hint, hintLast);
    }

    /** allocate once the vector exists: the hint's page first, then the leftmost page with room. */
    method AllocateLive(n: nat, hint: Option<Ptr>, hintLast: bool) returns (res: Ptr)
      requires Valid() && seg.Length != 0 && 1 <= n <= bmSz
      modifies this, seg, Repr
      ensures Valid() && fresh(Repr - old(Repr)) && (seg == old(seg) || fresh(seg))
      ensures Took(old(Used()), Used(), res, n, bmSz) && numAllocated == old(numAllocated) + n
      ensures (hint.Some? && !hintLast && hint.value.page in old(Used()) && hint.value.off < bmSz
               && n <= old(PageLf(hint.value.page))) ==> res.page == hint.value.page
    {
      var r := TryHint(n, hint, hintLast);
      if r.Some? {
        res := r.value;
      } else {
        res := FirstFit(n);
      }
    }

    /**
     * The hint step of allocate: unless upper_bound finds no page above the
     * hint (hintLast), the leaf of the hint's page, when that page is live
     * and the hint lies inside it, allocates the n slots if it can.
     */
    method TryHint(n: nat, hint: Option<Ptr>, hintLast: bool) returns (r: Option<Ptr>)
      requires Valid() && seg.Length != 0 && 1 <= n
      modifies this, seg, Repr
      ensures Valid() && seg == old(seg) && seg.Length != 0 && fresh(Repr - old(Repr))
      ensures r.None? ==> Used() == old(Used()) && numAllocated == old(numAllocated)
      ensures r.Some? ==>
        Took(old(Used()), Used(), r.value, n, bmSz) && numAllocated == old(numAllocated) + n
        && hint.Some? && !hintLast && r.value.page == hint.value.page
      ensures (hint.Some? && !hintLast && hint.value.page in old(Used()) && hint.value.off < bmSz
               && n <= old(PageLf(hint.value.page))) ==> r.Some?
    {
      r := None;
      if hint.Some? && !hintLast && hint.value.page in segPages && hint.value.off < bmSz {
        r := Alloc(FindPage(hint.value.page), n);
      }
    }

    /**
     * The tree step of allocate: grow when the root has no run of n, walk
     * down to the leftmost leaf with one, and allocate there; this cannot
     * fail.
     */
    method FirstFit(n: nat) returns (res: Ptr)
      requires Valid() && seg.Length != 0 && 1 <= n <= bmSz
      modifies this, seg, Repr
      ensures Valid() && fresh(Repr - old(Repr)) && (seg == old(seg) || fresh(seg))
      ensures Took(old(Used()), Used(), res, n, bmSz) && numAllocated == old(numAllocated) + n
    {
      ghost var U := Used();
      if seg[1].longestFree < n {
        Grow();
      }
      assert Used() == U;
      res := FitLeftmost(n);
    }

    /** The walk down to the leftmost leaf with a run of n, which the root promises, and the allocation there. */
    method FitLeftmost(n: nat) returns (res: Ptr)
      requires Valid() && seg.Length != 0 && 1 <= n <= seg[1].longestFree
      modifies this, seg, Repr
      ensures Valid() && fresh(Repr - old(Repr)) && seg == old(seg)
      ensures Took(old(Used()), Used(), res, n, bmSz) && numAllocated == old(numAllocated) + n
    {
      assert TreeOk(seg[..], numSeg, bmSz);
      var i := FindLeaf(n);
      var r := Alloc(i, n);
      res := r.value;
    }

    /**
     * validate(): the busy slots of every segment of the vector, inner nodes
     * included, add up to _num_allocated.
     */
    method Validate() returns (ok: bool)
      requires Valid()
      ensures ok
    {
      var actual: nat := 0;
      if seg.Length == 0 {
        SumZeros(counts);
      } else {
        LeavesTallied(seg[..], counts, segPages, numAllocated, numSeg, bmSz, maxLf, Repr);
        actual := SumSegments(seg, counts, numSeg);
      }
      ok := actual == numAllocated;
    }

    /** The vector of 2 * numSeg empty segments that allocate starts from. */
    method Prepare()
      requires Valid() && seg.Length == 0
      modifies this
      ensures Valid() && seg.Length == 2 * numSeg && fresh(seg)
      ensures Used() == old(Used()) && numAllocated == old(numAllocated) && numSeg == old(numSeg) && Repr == old(Repr)
    {
      seg := new Segment[2 * numSeg](_ => Segment(null, bmSz));
      EmptyTree(seg[..], counts, numSeg, bmSz, maxLf, Repr);
    }

    /**
     * The growth step of allocate: a vector twice as wide whose second half
     * is the old tree, each old level i moved to the second half of the new
     * level 2i, and whose first half is empty; _seg_pages is rebuilt for
     * the leaves' new places.
     */
    method Grow()
      requires Valid() && seg.Length != 0
      modifies this
      ensures Valid() && numSeg == 2 * old(numSeg) && seg.Length != 0 && fresh(seg) && seg[1].longestFree == bmSz
      ensures Used() == old(Used()) && numAllocated == old(numAllocated) && Repr == old(Repr)
    {
      ghost var a, c, m, R, U := seg[..], counts, segPages, Repr, Used();
      var N := numSeg;
      var b := Relocated();
      var sp := Reindexed(b);
      seg, numSeg, segPages := b, 2 * N, sp;
      counts := Zeros(N) + c;
      Pow2Double(N);
      GrownInv(a, seg[..], c, m, segPages, numAllocated, N, bmSz, maxLf, Repr);
      Carried(Held(a, c, N, bmSz, maxLf, m.Keys, R));
    }

    /**
     * The moving loop of the growth step: for each old level i, from the
     * leaves up, node 2i-j-1 goes to node 4i-j-1 of a new vector of 4N
     * empty segments.
     */
    method Relocated() returns (b: array<Segment>)
      requires seg.Length == 2 * numSeg && 2 <= numSeg && IsPow2(numSeg)
      ensures fresh(b) && b.Length == 4 * numSeg
      ensures forall k | 0 <= k < 4 * numSeg :: b[k] == Moved(seg[..], k, 0, bmSz)
    {
      var N, a := numSeg, seg[..];
      ghost var S := Sources(4 * N);
      b := new Segment[4 * N](_ => Segment(null, bmSz));
      NoneMoved(a, b[..], S, N, bmSz);
      var i := N;
      while i > 0
        invariant i <= N && (i == 0 || IsPow2(i))
        invariant AllMoved(a, b[..], S, 2 * i, bmSz)
      {
        MoveLevel(a, b, S, i, bmSz);
        if i == 1 {
          MovedFromOne(a, b[..], S, bmSz);
        } else {
          Pow2Half(i);
        }
        i := i / 2;
      }
      forall k | 0 <= k < 4 * N
        ensures b[k] == Moved(a, k, 0, bmSz)
      {
        assert b[k] == b[..][k];
        SourceAt(4 * N, k);
      }
    }

    /** The rebuilding of _seg_pages after growth: each leaf's page, if any, with its index. */
    method Reindexed(b: array<Segment>) returns (sp: map<Page, nat>)
      requires b.Length % 2 == 0
      ensures IndexOk(b[..], sp, b.Length / 2)
    {
      var N := b.Length / 2;
      sp := map[];
      var k := N;
      while k < 2 * N
        invariant N <= k <= 2 * N
        invariant forall p | p in sp :: N <= sp[p] < k && b[sp[p]].page == p
        invariant forall q {:trigger Listed(b[..], sp, q)} | N <= q < k :: Listed(b[..], sp, q)
      {
        ghost var prev := sp;
        if b[k].page != null {
          sp := sp[b[k].page := k];
        }
        forall q | N <= q <= k
          ensures Listed(b[..], sp, q)
        {
          if q < k {
            assert Listed(b[..], prev, q);
          }
        }
        k := k + 1;
      }
    }

    /**
     * _alloc(seg_idx, n): the leaf's segment allocates n slots, creating its
     * page when it has none; on success the count and the tree follow, and a
     * new page is entered in _seg_pages. It fails exactly when the leaf's
     * longest_free is below n.
     */
    method Alloc(segIdx: nat, n: nat) returns (res: Option<Ptr>)
      requires Valid() && seg.Length != 0 && numSeg <= segIdx < 2 * numSeg && 1 <= n
      modifies this, seg, Repr
      ensures Valid() && seg == old(seg) && numSeg == old(numSeg) && fresh(Repr - old(Repr))
      ensures res.Some? <==> n <= old(seg[segIdx].longestFree)
      ensures res.None? ==> Used() == old(Used()) && numAllocated == old(numAllocated)
      ensures res.Some? ==>
        Took(old(Used()), Used(), res.value, n, bmSz) && numAllocated == old(numAllocated) + n
        && res.value.page in segPages && segPages[res.value.page] == segIdx
      ensures res.Some? && old(seg[segIdx].page) != null ==> res.value.page == old(seg[segIdx].page)
    {
      ghost var a, c, m, R, U := seg[..], counts, segPages, Repr, Used();
      assert LeafOk(a, c, numSeg, bmSz, maxLf, R, segIdx);
      var t, r, diff := LeafAllocate(seg[segIdx], n, bmSz, maxLf, LeafFrame(a, c, m, numSeg, bmSz, maxLf, R, segIdx), U);
      if r.None? {
        return None;
      }
      Commit(segIdx, t, n, diff, r.value, a, c, m, R, U);
      res := Some(Ptr(t.page, r.value));
    }

    /**
     * The rest of _alloc once the leaf's segment took n slots into t: the
     * other leaves and pages are as they were, and the tree takes t.
     */
    method Commit(segIdx: nat, t: Segment, n: nat, diff: int, off: nat, ghost a: seq<Segment>, ghost c: seq<nat>,
                  ghost m: map<Page, nat>, ghost R: set<object>, ghost U: map<Page, seq<bool>>)
      requires PageShape(bmSz, maxLf) && 2 <= numSeg && IsPow2(numSeg) && Shape(a, c, m, numAllocated, numSeg, bmSz)
      requires counts == c && segPages == m && Repr == R && this !in R && seg !in R
      requires seg.Length == 2 * numSeg && seg[..] == a
      requires 1 <= n
      requires numSeg <= segIdx < 2 * numSeg && t.page != null && diff == t.longestFree - a[segIdx].longestFree
      requires OthersAsWere(a, c, m, numSeg, bmSz, maxLf, R, segIdx, U)
      requires SegOk(t, bmSz, maxLf) && Allocated(t) == c[segIdx - numSeg] + n
      requires t.page == a[segIdx].page || (a[segIdx].page == null && t.page !in R && t.page.bs.words !in R)
      requires this !in PageRepr(t) && seg !in PageRepr(t)
      requires m.Keys == U.Keys
      requires var b := PageBefore(U, t.page, bmSz);
        off + n <= |b| && NoneIn(b, off, off + n) && t.page.Bits() == SetRange(b, off, off + n)
      modifies this, seg
      ensures Valid() && seg == old(seg) && numSeg == old(numSeg) && Repr == R + PageRepr(t)
      ensures numAllocated == old(numAllocated) + n && t.page in segPages && segPages[t.page] == segIdx
      ensures Took(U, Used(), Ptr(t.page, off), n, bmSz)
    {
      ghost var bits := t.page.Bits();
      LeafReady(a, c, m, numAllocated, numSeg, bmSz, maxLf, R, U, segIdx, t, c[segIdx - numSeg] + n);
      SetLeaf(segIdx, t, c[segIdx - numSeg] + n, numAllocated + n, diff, a, c, m, R, U[t.page := bits]);
      TookAfter(U, t.page, off, n, bmSz, PageBefore(U, t.page, bmSz), bits);
    }

    /**
     * deallocate(p, n): _find_page locates the leaf holding p's page, whose
     * segment frees the n busy slots at p.
     */
    method Deallocate(p: Ptr, n: nat)
      requires Valid() && p.page in Used() && p.off + n <= |Used()[p.page]| && AllIn(Used()[p.page], p.off, p.off + n)
      modifies this, seg, Repr
      ensures Valid() && numSeg == old(numSeg) && Repr == old(Repr)
      ensures numAllocated + n == old(numAllocated) && Freed(old(Used()), Used(), p, n)
      ensures segPages == map[] ==> seg.Length == 0
    {
      var segIdx := FindPage(p.page);
      Free(segIdx, p.off, n);
    }

    /** _find_page(p): the leaf that holds a live page. */
    function FindPage(page: Page): (segIdx: nat)
      reads this, seg, Repr
      requires Valid() && page in Used()
      ensures seg.Length == 2 * numSeg && numSeg <= segIdx < 2 * numSeg && seg[segIdx].page == page
    {
      segPages[page]
    }

    /** The n slots from p are a busy block of a live page. */
    ghost predicate Live(p: Ptr, n: nat)
      reads this, seg, Repr
      requires Valid()
    {
      p.page in Used() && p.off + n <= |Used()[p.page]| && AllIn(Used()[p.page], p.off, p.off + n)
    }

    /** The longest_free the tree records for the leaf of a live page. */
    ghost function PageLf(page: Page): (lf: nat)
      reads this, seg, Repr
      requires Valid() && page in Used()
      ensures lf <= bmSz
    {
      assert segPages[page] < 2 * numSeg && NodeOk(seg[..], numSeg, bmSz, segPages[page]);
      seg[segPages[page]].longestFree
    }

    /**
     * extend(p, old_size, new_size, space_after): a block that is not to
     * grow comes back as it is when its size stays, and as null when it
     * would shrink; otherwise the leaf holding p's page tries to grow it in
     * place (_extend).
     */
    method Extend(p: Ptr, oldSz: nat, newSz: nat, after: bool) returns (res: Option<Ptr>)
      requires Valid()
      requires oldSz < newSz ==>
        p.page in Used() && 1 <= oldSz && p.off + oldSz <= |Used()[p.page]| && AllIn(Used()[p.page], p.off, p.off + oldSz)
      modifies this, seg, Repr
      ensures Valid() && numSeg == old(numSeg) && Repr == old(Repr) && seg == old(seg)
      ensures newSz == oldSz ==> res == Some(p)
      ensures newSz < oldSz ==> res.None?
      ensures newSz <= oldSz ==> Used() == old(Used()) && numAllocated == old(numAllocated)
      ensures oldSz < newSz ==>
        var choice := ExtendChoice(old(Used())[p.page], p.off, oldSz, newSz, after, old(PageLf(p.page)));
        && res == (if choice.None? then None else Some(Ptr(p.page, choice.value)))
        && (res.None? ==>
              Used() == old(Used()) && numAllocated == old(numAllocated) && PageLf(p.page) == old(PageLf(p.page)))
        && (res.Some? ==>
              && Used() == old(Used())[p.page := Grown(old(Used())[p.page], p.off, oldSz, newSz, choice.value)]
              && numAllocated == old(numAllocated) + (newSz - oldSz))
    {
      if newSz <= oldSz {
        if newSz == oldSz {
          return Some(p);
        }
        return None;
      }
      var segIdx := FindPage(p.page);
      assert PageLf(p.page) == seg[segIdx].longestFree;
      var r := ExtendAt(segIdx, p.off, oldSz, newSz, after);
      if r.Some? {
        res := Some(Ptr(p.page, r.value));
      } else {
        res := None;
      }
    }

    /**
     * _extend(seg_idx, start, old_size, new_size, space_after): counts the
     * try; the leaf's segment grows the busy block of oldSz slots at start
     * to newSz slots where extend chooses, and on success the count, the
     * tree and the success counter follow.
     */
    method ExtendAt(segIdx: nat, start: nat, oldSz: nat, newSz: nat, after: bool) returns (res: Option<nat>)
      requires Valid() && seg.Length != 0 && numSeg <= segIdx < 2 * numSeg
      requires seg[segIdx].page != null && seg[segIdx].page in Used() && 1 <= oldSz < newSz
      requires start + oldSz <= |Used()[seg[segIdx].page]| && AllIn(Used()[seg[segIdx].page], start, start + oldSz)
      modifies this, seg, Repr
      ensures Valid() && numSeg == old(numSeg) && Repr == old(Repr) && seg == old(seg)
      ensures numExtendTries == old(numExtendTries) + 1
      ensures res == ExtendChoice(old(Used())[old(seg[segIdx].page)], start, oldSz, newSz, after, old(seg[segIdx].longestFree))
      ensures res.None? ==>
        && Used() == old(Used()) && numAllocated == old(numAllocated) && numExtendSuccesses == old(numExtendSuccesses)
        && seg[..] == old(seg[..]) && segPages == old(segPages)
      ensures res.Some? ==>
        && Used() == old(Used())[old(seg[segIdx].page) :=
                                  Grown(old(Used())[old(seg[segIdx].page)], start, oldSz, newSz, res.value)]
        && numAllocated == old(numAllocated) + (newSz - oldSz) && numExtendSuccesses == old(numExtendSuccesses) + 1
    {
      ghost var a, c, m, R, U := seg[..], counts, segPages, Repr, Used();
      assert LeafOk(a, c, numSeg, bmSz, maxLf, R, segIdx);
      assert 0 < c[segIdx - numSeg];
      var t, r, diff := LeafExtend(seg[segIdx], start, oldSz, newSz, after, bmSz, maxLf,
                                   LeafFrame(a, c, m, numSeg, bmSz, maxLf, R, segIdx), U);
      assert r == ExtendChoice(U[a[segIdx].page], start, oldSz, newSz, after, a[segIdx].longestFree);
      if r.None? {
        ExtendRefused(segIdx, t, a, c, m, R, U);
      } else {
        ExtendCommit(segIdx, t, newSz - oldSz, diff, a, c, m, R, U, Grown(U[t.page], start, oldSz, newSz, r.value));
      }
      res := r;
    }

    /** The statistics _extend keeps: every try, and every try that grew a block. */
    method CountExtend(grew: bool)
      requires Valid()
      modifies this
      ensures Valid() && Used() == old(Used()) && numAllocated == old(numAllocated)
      ensures seg == old(seg) && numSeg == old(numSeg) && Repr == old(Repr) && segPages == old(segPages)
      ensures numExtendTries == old(numExtendTries) + 1
      ensures numExtendSuccesses == old(numExtendSuccesses) + (if grew then 1 else 0)
    {
      numExtendTries, numExtendSuccesses := numExtendTries + 1, numExtendSuccesses + if grew then 1 else 0;
    }

    /**
     * _extend once the leaf's segment grew a block by add slots into t: the
     * count goes up by add, the tree takes t, and the try and its success
     * are counted.
     */
    method ExtendCommit(segIdx: nat, t: Segment, add: nat, diff: int, ghost a: seq<Segment>, ghost c: seq<nat>,
                        ghost m: map<Page, nat>, ghost R: set<object>, ghost U: map<Page, seq<bool>>, ghost bits: seq<bool>)
      requires PageShape(bmSz, maxLf) && 2 <= numSeg && IsPow2(numSeg) && Shape(a, c, m, numAllocated, numSeg, bmSz)
      requires counts == c && segPages == m && Repr == R && this !in R && seg !in R
      requires seg.Length == 2 * numSeg && seg[..] == a
      requires numSeg <= segIdx < 2 * numSeg && diff == t.longestFree - a[segIdx].longestFree
      requires OthersAsWere(a, c, m, numSeg, bmSz, maxLf, R, segIdx, U) && PageRepr(t) <= R
      requires SegOk(t, bmSz, maxLf) && Allocated(t) == c[segIdx - numSeg] + add && 1 <= add
      requires t.page != null && t.page == a[segIdx].page && t.page.Bits() == bits
      requires m.Keys == U.Keys && t.page in U
      modifies this, seg
      ensures Valid() && numSeg == old(numSeg) && Repr == R && seg == old(seg)
      ensures numAllocated == old(numAllocated) + add && Used() == U[t.page := bits]
      ensures numExtendTries == old(numExtendTries) + 1 && numExtendSuccesses == old(numExtendSuccesses) + 1
    {
      LeafReady(a, c, m, numAllocated, numSeg, bmSz, maxLf, R, U, segIdx, t, c[segIdx - numSeg] + add);
      SetLeaf(segIdx, t, c[segIdx - numSeg] + add, numAllocated + add, diff, a, c, m, R, U[t.page := bits]);
      CountExtend(true);
    }

    /** _extend when the leaf's segment could not grow the block: only the try is counted. */
    method ExtendRefused(segIdx: nat, t: Segment, ghost a: seq<Segment>, ghost c: seq<nat>, ghost m: map<Page, nat>,
                         ghost R: set<object>, ghost U: map<Page, seq<bool>>)
      requires PageShape(bmSz, maxLf) && 2 <= numSeg && IsPow2(numSeg) && Shape(a, c, m, numAllocated, numSeg, bmSz)
      requires counts == c && segPages == m && Repr == R && this !in R && seg !in R
      requires seg.Length == 2 * numSeg && seg[..] == a
      requires numSeg <= segIdx < 2 * numSeg && t == a[segIdx] && t.page != null && PageRepr(t) <= R
      requires OthersAsWere(a, c, m, numSeg, bmSz, maxLf, R, segIdx, U) && 0 < c[segIdx - numSeg]
      requires SegOk(t, bmSz, maxLf) && Allocated(t) == c[segIdx - numSeg]
      requires m.Keys == U.Keys && t.page in U && t.page.Bits() == U[t.page]
      modifies this
      ensures Valid() && numSeg == old(numSeg) && Repr == R && seg == old(seg) && seg[..] == a && segPages == m
      ensures Used() == U && numAllocated == old(numAllocated)
      ensures numExtendTries == old(numExtendTries) + 1 && numExtendSuccesses == old(numExtendSuccesses)
    {
      Unmoved(segIdx, t, a, c, m, R, U);
      CountExtend(false);
    }

    /**
     * A leaf operation that gave back the leaf's segment unchanged, its
     * page's bitmap unchanged and the other leaves and pages as they were,
     * leaves the tree valid with the same bitmaps.
     */
    lemma Unmoved(segIdx: nat, t: Segment, a: seq<Segment>, c: seq<nat>, m: map<Page, nat>,
                  R: set<object>, U: map<Page, seq<bool>>)
      requires PageShape(bmSz, maxLf) && 2 <= numSeg && IsPow2(numSeg) && Shape(a, c, m, numAllocated, numSeg, bmSz)
      requires counts == c && segPages == m && Repr == R && this !in R && seg !in R
      requires seg.Length == 2 * numSeg && seg[..] == a
      requires numSeg <= segIdx < 2 * numSeg && t == a[segIdx] && t.page != null && PageRepr(t) <= R
      requires OthersAsWere(a, c, m, numSeg, bmSz, maxLf, R, segIdx, U) && 0 < c[segIdx - numSeg]
      requires SegOk(t, bmSz, maxLf) && Allocated(t) == c[segIdx - numSeg]
      requires m.Keys == U.Keys && t.page in U && t.page.Bits() == U[t.page]
      ensures Valid() && Used() == U
    {
      LeafReady(a, c, m, numAllocated, numSeg, bmSz, maxLf, R, U, segIdx, t, c[segIdx - numSeg]);
      assert a[segIdx := t] == a && c[segIdx - numSeg := c[segIdx - numSeg]] == c && R + PageRepr(t) == R;
      assert U[t.page := t.page.Bits()] == U;
    }

    /**
     * shrink(p, old_size, new_size): the leaf holding p's page frees the
     * tail of the block down to newSz slots (_shrink); the block keeps its
     * start.
     */
    method Shrink(p: Ptr, oldSz: nat, newSz: nat) returns (res: Ptr)
      requires Valid() && p.page in Used() && 1 <= newSz < oldSz
      requires p.off + oldSz <= |Used()[p.page]| && AllIn(Used()[p.page], p.off, p.off + oldSz)
      modifies this, seg, Repr
      ensures Valid() && numSeg == old(numSeg) && Repr == old(Repr) && seg == old(seg) && res == p
      ensures Used() == old(Used())[p.page := ResetRange(old(Used())[p.page], p.off + newSz, p.off + oldSz)]
      ensures numAllocated + (oldSz - newSz) == old(numAllocated)
    {
      var segIdx := FindPage(p.page);
      var r := ShrinkAt(segIdx, p.off, oldSz, newSz);
      res := Ptr(p.page, r);
    }

    /**
     * _shrink(seg_idx, start, old_size, new_size): the leaf's segment frees
     * the tail [start + newSz, start + oldSz) of the busy block; the count
     * and the tree follow.
     */
    method ShrinkAt(segIdx: nat, start: nat, oldSz: nat, newSz: nat) returns (res: nat)
      requires Valid() && seg.Length != 0 && numSeg <= segIdx < 2 * numSeg
      requires seg[segIdx].page != null && seg[segIdx].page in Used() && 1 <= newSz < oldSz
      requires start + oldSz <= |Used()[seg[segIdx].page]| && AllIn(Used()[seg[segIdx].page], start, start + oldSz)
      modifies this, seg, Repr
      ensures Valid() && numSeg == old(numSeg) && Repr == old(Repr) && seg == old(seg) && res == start
      ensures Used() == old(Used())[old(seg[segIdx].page) :=
                                     ResetRange(old(Used())[old(seg[segIdx].page)], start + newSz, start + oldSz)]
      ensures numAllocated + (oldSz - newSz) == old(numAllocated)
    {
      ghost var a, c, m, R, U := seg[..], counts, segPages, Repr, Used();
      assert LeafOk(a, c, numSeg, bmSz, maxLf, R, segIdx);
      var t, r, diff := LeafShrink(seg[segIdx], start, oldSz, newSz, bmSz, maxLf,
                                   LeafFrame(a, c, m, numSeg, bmSz, maxLf, R, segIdx), U);
      ghost var page: Page := t.page;
      SumUpdate(c, segIdx - numSeg, 0);
      LeafReady(a, c, m, numAllocated, numSeg, bmSz, maxLf, R, U, segIdx, t, c[segIdx - numSeg] - (oldSz - newSz));
      SetLeaf(segIdx, t, c[segIdx - numSeg] - (oldSz - newSz), numAllocated - (oldSz - newSz), diff, a, c, m, R,
              U[page := ResetRange(U[page], start + newSz, start + oldSz)]);
      res := r;
    }

    /**
     * _free(seg_idx, start, n): the leaf's segment frees the busy block
     * [start, start + n) of its page; the count and the tree follow, a page
     * left with no busy slot is released and erased from _seg_pages, and the
     * segment vector is dropped once no page is left.
     */
    method Free(segIdx: nat, start: nat, n: nat)
      requires Valid() && seg.Length != 0 && numSeg <= segIdx < 2 * numSeg
      requires seg[segIdx].page != null && seg[segIdx].page in Used()
      requires start + n <= |Used()[seg[segIdx].page]| && AllIn(Used()[seg[segIdx].page], start, start + n)
      modifies this, seg, Repr
      ensures Valid() && numSeg == old(numSeg) && Repr == old(Repr)
      ensures numAllocated == old(numAllocated) - n
      ensures Freed(old(Used()), Used(), Ptr(old(seg[segIdx].page), start), n)
      ensures segPages == map[] ==> seg.Length == 0
    {
      ghost var a, c, m, R, U := seg[..], counts, segPages, Repr, Used();
      assert LeafOk(a, c, numSeg, bmSz, maxLf, R, segIdx);
      var t, diff := LeafFree(seg[segIdx], start, n, bmSz, maxLf, LeafFrame(a, c, m, numSeg, bmSz, maxLf, R, segIdx), U);
      FreeCommit(segIdx, t, n, diff, start, a, c, m, R, U);
      if segPages == map[] {
        Clear();
      }
    }

    /**
     * The rest of _free once the leaf's segment freed n slots into t: the
     * other leaves and pages are as they were, and the tree takes t.
     */
    method FreeCommit(segIdx: nat, t: Segment, n: nat, diff: int, start: nat, ghost a: seq<Segment>, ghost c: seq<nat>,
                      ghost m: map<Page, nat>, ghost R: set<object>, ghost U: map<Page, seq<bool>>)
      requires PageShape(bmSz, maxLf) && 2 <= numSeg && IsPow2(numSeg) && Shape(a, c, m, numAllocated, numSeg, bmSz)
      requires counts == c && segPages == m && Repr == R && this !in R && seg !in R
      requires seg.Length == 2 * numSeg && seg[..] == a
      requires numSeg <= segIdx < 2 * numSeg && a[segIdx].page != null && diff == t.longestFree - a[segIdx].longestFree
      requires OthersAsWere(a, c, m, numSeg, bmSz, maxLf, R, segIdx, U) && PageRepr(a[segIdx]) <= R
      requires SegOk(t, bmSz, maxLf) && Allocated(t) + n == c[segIdx - numSeg] && (t.page != null ==> 0 < Allocated(t))
      requires t.page == a[segIdx].page || t.page == null
      requires m.Keys == U.Keys && a[segIdx].page in U
      requires start + n <= |U[a[segIdx].page]| && AllIn(U[a[segIdx].page], start, start + n)
      requires var r := ResetRange(U[a[segIdx].page], start, start + n);
        (t.page == null <==> NoneSet(r)) && (t.page != null ==> t.page.Bits() == r)
      modifies this, seg
      ensures Valid() && numSeg == old(numSeg) && Repr == R && seg == old(seg)
      ensures numAllocated + n == old(numAllocated)
      ensures Freed(U, Used(), Ptr(a[segIdx].page, start), n)
    {
      SumUpdate(c, segIdx - numSeg, 0);
      ghost var page: Page := a[segIdx].page;
      ghost var r := ResetRange(U[page], start, start + n);
      ghost var U2 := if NoneSet(r) then U - {page} else U[page := r];
      LeafReady(a, c, m, numAllocated, numSeg, bmSz, maxLf, R, U, segIdx, t, c[segIdx - numSeg] - n);
      SetLeaf(segIdx, t, c[segIdx - numSeg] - n, numAllocated - n, diff, a, c, m, R, U2);
      FreedBy(U, Used(), page, start, n);
    }

    /**
     * Drops the segment vector and the index once no page is live: every
     * leaf is then empty and counts nothing.
     */
    method Clear()
      requires Valid() && seg.Length != 0 && segPages == map[]
      modifies this
      ensures Valid() && seg.Length == 0 && Used() == map[] && numAllocated == 0
      ensures numSeg == old(numSeg) && Repr == old(Repr) && counts == old(counts)
    {
      ghost var a := seg[..];
      forall i | 0 <= i < numSeg
        ensures counts[i] == 0
      {
        assert Listed(a, segPages, numSeg + i);
        assert LeafOk(a, counts, numSeg, bmSz, maxLf, Repr, numSeg + i);
      }
      SumZeros(counts);
      seg := new Segment[0];
      segPages := map[];
    }

    /**
     * Stores the segment t at leaf segIdx after a segment operation left cnt
     * busy slots in it, with total slots busy in the tree; the index follows
     * the leaf's page and the tree above the leaf is repaired.
     */
    method SetLeaf(segIdx: nat, t: Segment, ghost cnt: nat, total: nat, diff: int, ghost a: seq<Segment>, ghost c: seq<nat>,
                   ghost m: map<Page, nat>, ghost R: set<object>, ghost U2: map<Page, seq<bool>>)
      requires PageShape(bmSz, maxLf) && 2 <= numSeg && IsPow2(numSeg) && Shape(a, c, m, numAllocated, numSeg, bmSz)
      requires counts == c && segPages == m && Repr == R && this !in R && seg !in R
      requires seg.Length == 2 * numSeg && seg[..] == a
      requires numSeg <= segIdx < 2 * numSeg && diff == t.longestFree - a[segIdx].longestFree
      requires t.longestFree <= bmSz && total + c[segIdx - numSeg] == numAllocated + cnt
      requires LeafMove(a, m, numSeg, segIdx, t.page)
      requires LeavesOk(a[segIdx := t], c[segIdx - numSeg := cnt], numSeg, bmSz, maxLf, R + PageRepr(t))
      requires this !in PageRepr(t) && seg !in PageRepr(t)
      requires forall p | p in Reindex(m, a[segIdx].page, t.page, segIdx) :: p.bs.words in R + PageRepr(t) && p.bs.Valid()
      requires BitsOf(Reindex(m, a[segIdx].page, t.page, segIdx).Keys, R + PageRepr(t)) == U2
      modifies this, seg
      ensures Valid() && seg == old(seg) && numSeg == old(numSeg) && Repr == R + PageRepr(t)
      ensures numAllocated == total && segPages == Reindex(m, a[segIdx].page, t.page, segIdx)
      ensures Used() == U2
      ensures numExtendTries == old(numExtendTries) && numExtendSuccesses == old(numExtendSuccesses)
    {
      ghost var m2 := Reindex(m, a[segIdx].page, t.page, segIdx);
      ghost var held := Held(a[segIdx := t], c[segIdx - numSeg := cnt], numSeg, bmSz, maxLf, m2.Keys, R + PageRepr(t));
      ghost var total0 := numAllocated;
      StoreLeaf(segIdx, t, cnt, total, diff, a);
      Carried(held);
      assert held.a == a[segIdx := t] && counts == held.c && Repr == held.R;
      LeafStored(a, seg[..], c, counts, m, segPages, total0, numAllocated, cnt, numSeg, bmSz, maxLf, Repr, segIdx, t);
      assert segPages.Keys == held.ps;
    }

    /**
     * The stores of a leaf update: the segment t goes to leaf segIdx, the
     * counters take cnt and total, the index gains or loses the leaf's page,
     * and the tree above the leaf is repaired.
     */
    method StoreLeaf(segIdx: nat, t: Segment, ghost cnt: nat, total: nat, diff: int, ghost a: seq<Segment>)
      requires seg.Length == 2 * numSeg && seg[..] == a && TreeOk(a, numSeg, bmSz) && |counts| == numSeg
      requires numSeg <= segIdx < 2 * numSeg && diff == t.longestFree - a[segIdx].longestFree
      requires t.longestFree <= bmSz
      modifies this, seg
      ensures seg == old(seg) && numSeg == old(numSeg) && numAllocated == total
      ensures counts == old(counts)[segIdx - numSeg := cnt]
      ensures numExtendTries == old(numExtendTries) && numExtendSuccesses == old(numExtendSuccesses)
      ensures segPages == Reindex(old(segPages), a[segIdx].page, t.page, segIdx)
      ensures Repr == old(Repr) + PageRepr(t)
      ensures TreeOk(seg[..], numSeg, bmSz) && seg[segIdx] == t
      ensures forall k | numSeg <= k < 2 * numSeg && k != segIdx :: seg[k] == a[k]
    {
      forall k | 0 <= k < 2 * numSeg
        ensures a[k].longestFree <= bmSz
      {
        assert NodeOk(a, numSeg, bmSz, k);
      }
      var page := seg[segIdx].page;
      seg[segIdx] := t;
      numAllocated, counts := total, counts[segIdx - numSeg := cnt];
      UpdateSegmentTree(segIdx, diff, a);
      if page == null && t.page != null {
        segPages := segPages[t.page := segIdx];
      } else if page != null && t.page == null {
        segPages := segPages - {page};
      }
      Repr := Repr + PageRepr(t);
      TreeAfterLeaf(a, seg[..], numSeg, bmSz, segIdx, t);
    }

    /**
     * _update_segment_tree(seg_idx, diff): the leaf seg_idx went from
     * before[seg_idx] to its present longest_free, and diff says by how much;
     * nothing is done when diff is 0. The heap holds again, and no leaf and
     * no page changes.
     */
    method UpdateSegmentTree(segIdx: nat, diff: int, ghost before: seq<Segment>)
      requires seg.Length == 2 * numSeg && numSeg <= segIdx < 2 * numSeg
      requires |before| == 2 * numSeg && HeapOk(before, numSeg)
      requires seg[..] == before[segIdx := seg[segIdx]]
      requires diff == seg[segIdx].longestFree - before[segIdx].longestFree
      requires forall k | 0 <= k < 2 * numSeg :: before[k].longestFree <= bmSz
      requires seg[segIdx].longestFree <= bmSz
      modifies seg
      ensures HeapOk(seg[..], numSeg) && Kept(seg[..], old(seg[..]), numSeg, bmSz)
      ensures diff == 0 ==> seg[..] == old(seg[..])
    {
      if diff == 0 {
        HeapSameValues(before, seg[..], numSeg);
        return;
      }
      LeafChanged(before, seg[..], numSeg, segIdx);
      if diff > 0 {
        RaiseParents(segIdx, before[segIdx].longestFree);
      } else {
        LowerParents(segIdx, before[segIdx].longestFree);
      }
    }

    /**
     * The diff > 0 branch: while the parent is smaller than the node just
     * raised, the parent takes the node's value.
     */
    method RaiseParents(segIdx: nat, ghost prev: nat)
      requires seg.Length == 2 * numSeg && numSeg <= segIdx
      requires Climb(seg[..], numSeg, segIdx, prev) && prev <= seg[segIdx].longestFree
      requires forall k | 0 <= k < 2 * numSeg :: seg[k].longestFree <= bmSz
      modifies seg
      ensures HeapOk(seg[..], numSeg) && Kept(seg[..], old(seg[..]), numSeg, bmSz)
    {
      var idx: nat := segIdx;
      ghost var last: nat := prev;
      while idx > 1 && seg[idx / 2].longestFree < seg[idx].longestFree
        invariant seg.Length == 2 * numSeg
        invariant Climb(seg[..], numSeg, idx, last) && last <= seg[idx].longestFree
        invariant Kept(seg[..], old(seg[..]), numSeg, bmSz)
        decreases idx
      {
        ghost var a := seg[..];
        last := seg[idx / 2].longestFree;
        seg[idx / 2] := seg[idx / 2].(longestFree := seg[idx].longestFree);
        RaiseStep(a, seg[..], numSeg, idx, last, old(seg[..]), bmSz);
        idx := idx / 2;
      }
      RaiseDone(seg[..], numSeg, idx, last);
    }

    /**
     * The diff < 0 branch: from the pair holding the lowered node, the parent
     * takes the larger of the pair while that is smaller than what the parent
     * holds; the walk stops at the first parent that keeps its value.
     */
    method LowerParents(segIdx: nat, ghost prev: nat)
      requires seg.Length == 2 * numSeg && numSeg <= segIdx
      requires Climb(seg[..], numSeg, segIdx, prev) && seg[segIdx].longestFree <= prev
      requires forall k | 0 <= k < 2 * numSeg :: seg[k].longestFree <= bmSz
      modifies seg
      ensures HeapOk(seg[..], numSeg) && Kept(seg[..], old(seg[..]), numSeg, bmSz)
    {
      var idx: nat := segIdx;
      ghost var last: nat := prev;
      while idx > 1
        invariant seg.Length == 2 * numSeg
        invariant Climb(seg[..], numSeg, idx, last) && seg[idx].longestFree <= last
        invariant Kept(seg[..], old(seg[..]), numSeg, bmSz)
        decreases idx
      {
        var left := idx - idx % 2; // seg_idx &= ~1: the left child of the pair
        var curMax := Max(seg[left].longestFree, seg[left + 1].longestFree);
        var p := left / 2;
        assert left == p * 2 && p == idx / 2;
        if curMax < seg[p].longestFree {
          ghost var a := seg[..];
          last := seg[p].longestFree;
          seg[p] := seg[p].(longestFree := curMax);
          LowerStep(a, seg[..], numSeg, idx, last, old(seg[..]), bmSz);
          idx := p;
        } else {
          LowerDone(seg[..], numSeg, idx, last);
          break;
        }
      }
      if idx == 1 {
        LowerDone(seg[..], numSeg, idx, last);
      }
    }

    /**
     * The descent of allocate(): from the root's children, go left when the
     * left child has a run of n, otherwise right. The leaf reached is the
     * first, from the left, whose longest_free is at least n.
     */
    method FindLeaf(n: nat) returns (i: nat)
      requires seg.Length == 2 * numSeg && 2 <= numSeg && IsPow2(numSeg)
      requires HeapOk(seg[..], numSeg) && n <= seg[1].longestFree
      ensures numSeg <= i < 2 * numSeg && n <= seg[i].longestFree
      ensures forall j | numSeg <= j < i :: seg[j].longestFree < n
    {
      ghost var a := seg[..];
      DescentStart(a, numSeg, n);
      i := 2;
      ghost var w: nat := numSeg / 2;
      ghost var lo: nat := numSeg;
      while i < numSeg
        invariant Descent(a, numSeg, n, i, w, lo)
      {
        DescendStep(a, numSeg, n, i, w, lo);
        if seg[i].longestFree < n {
          i, lo := 2 * (i + 1), lo + w;
        } else {
          i := 2 * i;
        }
        w := w / 2;
      }
      DescentEnd(a, numSeg, n, i, w, lo);
      if seg[i].longestFree < n {
        i := i + 1;
      }
    }
  }
}
