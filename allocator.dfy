/**
 * spp_allocator of spp_alloc.h: a handle on a segment tree that its copies
 * share, forwarding allocate, deallocate and extend to the tree, and
 * building shrink and reallocate on top of them.
 */
module SppAllocator {
  import opened BitSpec
  import opened SppAlloc
  import opened SppSegTree

  /** Slots n more are taken in a page: every busy block stays busy. */
  lemma StaysLive(U: map<Page, seq<bool>>, U2: map<Page, seq<bool>>, q: Ptr, n: nat, bmSz: nat, p: Ptr, m: nat)
    requires Took(U, U2, q, n, bmSz)
    requires p.page in U && p.off + m <= |U[p.page]| && AllIn(U[p.page], p.off, p.off + m)
    ensures p.page in U2 && p.off + m <= |U2[p.page]| && AllIn(U2[p.page], p.off, p.off + m)
  {
    if q.page == p.page {
      var b := PageBefore(U, q.page, bmSz);
      assert b == U[p.page];
      forall i | p.off <= i < p.off + m
        ensures U2[p.page][i]
      {
        assert b[i];
      }
    }
  }

  /** The block at p cut from oldSz slots down to newSz: its tail is free again. */
  ghost predicate Trimmed(U: map<Page, seq<bool>>, U2: map<Page, seq<bool>>, p: Ptr, oldSz: nat, newSz: nat)
  {
    p.page in U && U2 == U[p.page := ResetRange(U[p.page], p.off + newSz, p.off + oldSz)]
  }

  /** The block at q grown in place from oldSz to newSz slots, now starting at r. */
  ghost predicate GrewTo(U: map<Page, seq<bool>>, U2: map<Page, seq<bool>>, q: Ptr, oldSz: nat, newSz: nat, r: nat)
  {
    && q.page in U && oldSz < newSz && q.off + oldSz <= |U[q.page]| && r <= q.off
    && (r == q.off ==> q.off + newSz <= |U[q.page]|)
    && U2 == U[q.page := Grown(U[q.page], q.off, oldSz, newSz, r)]
  }

  class Allocator {
    /** _st: the segment tree, shared by every copy of this allocator. */
    const st: SegTree

    ghost predicate Valid()
      reads st, st.seg, st.Repr
    {
      st.Valid()
    }

    /** spp_allocator(): a fresh tree of pages of size slots. */
    constructor (size: nat, maxRun: nat)
      requires PageShape(size, maxRun)
      ensures Valid() && fresh(st) && st.Used() == map[] && st.bmSz == size
    {
      st := new SegTree(size, maxRun);
    }

    /** spp_allocator(const spp_allocator &o): the copy shares o's tree. */
    constructor Copy(o: Allocator)
      ensures st == o.st
    {
      st := o.st;
    }

    /**
     * allocate(n, hint): forwarded to the tree; hintLast says whether the
     * hint lies in the highest-addressed live page, which the tree's hint
     * search passes over.
     */
    method Allocate(n: nat, hint: Option<Ptr>, hintLast: bool) returns (res: Ptr)
      requires Valid() && 1 <= n <= st.bmSz
      modifies st, st.seg, st.Repr
      ensures Valid() && fresh(st.Repr - old(st.Repr)) && (st.seg == old(st.seg) || fresh(st.seg))
      ensures Took(old(st.Used()), st.Used(), res, n, st.bmSz)
      ensures (hint.Some? && !hintLast && hint.value.page in old(st.Used()) && hint.value.off < st.bmSz
               && n <= old(st.PageLf(hint.value.page))) ==> res.page == hint.value.page
    {
      res := st.Allocate(n, hint, hintLast);
    }

    /** deallocate(p, n): forwarded to the tree. */
    method Deallocate(p: Ptr, n: nat)
      requires Valid() && st.Live(p, n)
      modifies st, st.seg, st.Repr
      ensures Valid() && Freed(old(st.Used()), st.Used(), p, n)
    {
      st.Deallocate(p, n);
    }

    /** extend(p, old_size, new_size, space_after): forwarded to the tree. */
    method Extend(p: Ptr, oldSz: nat, newSz: nat, after: bool) returns (res: Option<Ptr>)
      requires Valid() && (oldSz < newSz ==> 1 <= oldSz && st.Live(p, oldSz))
      modifies st, st.seg, st.Repr
      ensures Valid() && st.seg == old(st.seg) && st.Repr == old(st.Repr)
      ensures newSz == oldSz ==> res == Some(p)
      ensures newSz < oldSz ==> res.None?
      ensures newSz <= oldSz ==> st.Used() == old(st.Used())
      ensures oldSz < newSz ==>
        var choice := ExtendChoice(old(st.Used())[p.page], p.off, oldSz, newSz, after, old(st.PageLf(p.page)));
        && res == (if choice.None? then None else Some(Ptr(p.page, choice.value)))
        && (res.None? ==> st.Used() == old(st.Used()) && st.PageLf(p.page) == old(st.PageLf(p.page)))
        && (res.Some? ==> GrewTo(old(st.Used()), st.Used(), p, oldSz, newSz, choice.value))
    {
      res := st.Extend(p, oldSz, newSz, after);
    }

    /**
     * shrink(p, old_size, new_size): to nothing frees the whole block and
     * gives null, to the same size gives p back untouched, and otherwise
     * the tree frees the block's tail and p stays.
     */
    method Shrink(p: Ptr, oldSz: nat, newSz: nat) returns (res: Option<Ptr>)
      requires Valid() && newSz <= oldSz && (newSz == 0 || newSz < oldSz ==> st.Live(p, oldSz))
      modifies st, st.seg, st.Repr
      ensures Valid()
      ensures newSz == 0 ==> res.None? && Freed(old(st.Used()), st.Used(), p, oldSz)
      ensures newSz == oldSz != 0 ==> res == Some(p) && st.Used() == old(st.Used())
      ensures 0 < newSz < oldSz ==> res == Some(p) && Trimmed(old(st.Used()), st.Used(), p, oldSz, newSz)
    {
      if newSz == 0 {
        st.Deallocate(p, oldSz);
        return None;
      }
      if newSz == oldSz {
        return Some(p);
      }
      var r := st.Shrink(p, oldSz, newSz);
      res := Some(r);
    }

    /**
     * reallocate(p, old_size, new_size): from null it allocates; to a size
     * no larger it shrinks; otherwise it grows the block in place, after it
     * if it can, and failing that allocates new_size slots near p and frees
     * the old block. pLast says whether p lies in the highest-addressed live
     * page, where the hint search does not look.
     */
    method Reallocate(p: Option<Ptr>, oldSz: nat, newSz: nat, pLast: bool) returns (res: Option<Ptr>)
      requires Valid() && newSz <= st.bmSz
      requires p.None? ==> 1 <= newSz
      requires p.Some? ==> 1 <= oldSz && st.Live(p.value, oldSz)
      modifies st, st.seg, st.Repr
      ensures Valid()
      ensures p.None? ==> res.Some? && Took(old(st.Used()), st.Used(), res.value, newSz, st.bmSz)
      ensures p.Some? && newSz == 0 ==> res.None? && Freed(old(st.Used()), st.Used(), p.value, oldSz)
      ensures p.Some? && newSz == oldSz ==> res == p && st.Used() == old(st.Used())
      ensures p.Some? && 0 < newSz < oldSz ==> res == p && Trimmed(old(st.Used()), st.Used(), p.value, oldSz, newSz)
      ensures p.Some? && oldSz < newSz ==>
        var q := p.value;
        var choice := ExtendChoice(old(st.Used())[q.page], q.off, oldSz, newSz, true, old(st.PageLf(q.page)));
        && res.Some?
        && (choice.Some? ==>
              res.value == Ptr(q.page, choice.value) && GrewTo(old(st.Used()), st.Used(), q, oldSz, newSz, choice.value))
        && (choice.None? ==>
              exists mid :: Took(old(st.Used()), mid, res.value, newSz, st.bmSz) && Freed(mid, st.Used(), q, oldSz))
        && (choice.None? && !pLast && q.off < st.bmSz && newSz <= old(st.PageLf(q.page)) ==> res.value.page == q.page)
    {
      if p.None? {
        var r := Allocate(newSz, None, false);
        return Some(r);
      }
      if newSz <= oldSz {
        res := Shrink(p.value, oldSz, newSz);
        return;
      }
      var r := Enlarge(p.value, oldSz, newSz, pLast);
      res := Some(r);
    }

    /** The growing case of reallocate: in place when extend can, else moved. */
    method Enlarge(q: Ptr, oldSz: nat, newSz: nat, qLast: bool) returns (res: Ptr)
      requires Valid() && 1 <= oldSz < newSz <= st.bmSz && st.Live(q, oldSz)
      modifies st, st.seg, st.Repr
      ensures Valid()
      ensures var choice := ExtendChoice(old(st.Used())[q.page], q.off, oldSz, newSz, true, old(st.PageLf(q.page)));
        && (choice.Some? ==>
              res == Ptr(q.page, choice.value) && GrewTo(old(st.Used()), st.Used(), q, oldSz, newSz, choice.value))
        && (choice.None? ==>
              exists mid :: Took(old(st.Used()), mid, res, newSz, st.bmSz) && Freed(mid, st.Used(), q, oldSz))
        && (choice.None? && !qLast && q.off < st.bmSz && newSz <= old(st.PageLf(q.page)) ==> res.page == q.page)
    {
      ghost var U, lf := st.Used(), st.PageLf(q.page);
      var r := Extend(q, oldSz, newSz, true);
      if r.Some? {
        return r.value;
      }
      assert st.Used() == U && st.PageLf(q.page) == lf;
      res := Move(q, oldSz, newSz, qLast);
    }

    /**
     * The last resort of reallocate: newSz slots with q as the hint, then
     * q's block freed; qLast says whether q lies in the highest-addressed
     * live page.
     */
    method Move(q: Ptr, oldSz: nat, newSz: nat, qLast: bool) returns (res: Ptr)
      requires Valid() && 1 <= newSz <= st.bmSz && st.Live(q, oldSz)
      modifies st, st.seg, st.Repr
      ensures Valid()
      ensures exists mid :: Took(old(st.Used()), mid, res, newSz, st.bmSz) && Freed(mid, st.Used(), q, oldSz)
      ensures !qLast && q.off < st.bmSz && newSz <= old(st.PageLf(q.page)) ==> res.page == q.page
    {
      ghost var before := st.Used();
      res := Allocate(newSz, Some(q), qLast);
      ghost var mid := st.Used();
      StaysLive(before, mid, res, newSz, st.bmSz, q, oldSz);
      Deallocate(q, oldSz);
      assert Took(before, mid, res, newSz, st.bmSz) && Freed(mid, st.Used(), q, oldSz);
    }
  }
}
