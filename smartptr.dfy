// spp_rc and spp_sptr: an intrusive reference count and the smart pointer
// that maintains it. Each RcObj carries, as ghost state, the set of smart
// pointers holding it; its invariant is that the count is the number of
// holders, so the object is deleted exactly when its last holder lets go.
module SppSmartPtr {

  /** spp_rc: a reference-counted object. */
  class RcObj {
    /** _cnt */
    var cnt: nat
    /** Set by decrement() when the count reaches 0 ("delete this"). */
    var deleted: bool
    /** The smart pointers that hold this object. */
    ghost var holders: set<SPtr>

    /** The count is the number of holders; a deleted object has none. */
    ghost predicate Valid()
      reads this
    {
      cnt == |holders| && (deleted ==> cnt == 0)
    }

    /** spp_rc(): count 0. */
    constructor ()
      ensures Valid() && cnt == 0 && !deleted && holders == {}
    {
      cnt := 0;
      deleted := false;
      holders := {};
    }

    /** spp_rc(const spp_rc &): a copy starts with count 0, whatever the original's count. */
    constructor Copy(o: RcObj)
      ensures Valid() && cnt == 0 && !deleted && holders == {}
    {
      cnt := 0;
      deleted := false;
      holders := {};
    }

    /** increment(): one more holder, h. */
    method Increment(ghost h: SPtr)
      requires Valid() && !deleted && h !in holders
      modifies this
      ensures Valid() && !deleted
      ensures cnt == old(cnt) + 1 && holders == old(holders) + {h}
    {
      cnt := cnt + 1;
      holders := holders + {h};
    }

    /** decrement(): requires a positive count; h lets go, and the object is deleted at 0. */
    method Decrement(ghost h: SPtr)
      requires Valid() && !deleted && h in holders
      modifies this
      ensures Valid()
      ensures cnt == old(cnt) - 1 && holders == old(holders) - {h}
      ensures deleted <==> cnt == 0
    {
      cnt := cnt - 1;
      holders := holders - {h};
      if cnt == 0 {
        deleted := true;
      }
    }

    /** count(): requires a positive count; the number of holders. */
    function Count(): (c: nat)
      reads this
      requires Valid() && cnt > 0
      ensures c == |holders| && c > 0
    {
      cnt
    }
  }

  /** spp_sptr<T>: holds p (null or a live object) and counts itself among its holders. */
  class SPtr {
    /** _p */
    var p: RcObj?

    ghost predicate Valid()
      reads this, p
    {
      p != null ==> p.Valid() && !p.deleted && this in p.holders
    }

    /** spp_sptr(): holds null. */
    constructor Null()
      ensures Valid() && p == null
    {
      p := null;
    }

    /** spp_sptr(T *p): holds q, which counts one more holder. */
    constructor (q: RcObj?)
      requires q != null ==> q.Valid() && !q.deleted
      modifies q
      ensures Valid() && p == q
      ensures q != null ==> q.cnt == old(q.cnt) + 1 && q.holders == old(q.holders) + {this}
    {
      p := q;
      new;
      if q != null {
        q.Increment(this);
      }
    }

    /** spp_sptr(const spp_sptr &o): holds o's target, which counts one more holder. */
    constructor Copy(o: SPtr)
      requires o.Valid()
      modifies o.p
      ensures Valid() && p == o.p
      ensures o.p != null ==> o.p.cnt == old(o.p.cnt) + 1 && o.p.holders == old(o.p.holders) + {this}
    {
      p := o.p;
      new;
      if p != null {
        p.Increment(this);
      }
    }

    /** ~spp_sptr(): the target, if any, loses this holder. */
    method Destroy()
      requires Valid()
      modifies this, p
      ensures p == null
      ensures old(p) != null ==>
        (old(p).Valid() && old(p).cnt == old(p.cnt) - 1
         && old(p).holders == old(p.holders) - {this} && (old(p).deleted <==> old(p).cnt == 0))
    {
      if p != null {
        p.Decrement(this);
      }
      p := null;
    }

    /** get() */
    function Get(): (r: RcObj?)
      reads this
      ensures r == p
    {
      p
    }

    /**
     * reset(p): nothing when q is the target already; otherwise the old
     * target loses this holder (and is deleted at count 0), and q gains it.
     */
    method Reset(q: RcObj?)
      requires Valid()
      requires q != null && q != p ==> q.Valid() && !q.deleted && this !in q.holders
      modifies this, p, q
      ensures Valid() && p == q
      ensures old(p) == q && q != null ==> unchanged(q)
      ensures old(p) != q && old(p) != null ==>
        (old(p).Valid() && old(p).cnt == old(p.cnt) - 1
         && old(p).holders == old(p.holders) - {this} && (old(p).deleted <==> old(p).cnt == 0))
      ensures old(p) != q && q != null ==> q.cnt == old(q.cnt) + 1 && q.holders == old(q.holders) + {this}
    {
      if q == p {
        return;
      }
      if p != null {
        p.Decrement(this);
      }
      p := q;
      if p != null {
        p.Increment(this);
      }
    }

    /** operator=(o): reset(o._p). */
    method Assign(o: SPtr)
      requires Valid() && o.Valid()
      requires o.p != null && o.p != p ==> this !in o.p.holders
      modifies this, p, o.p
      ensures Valid() && p == old(o.p)
      ensures old(p) == old(o.p) && old(p) != null ==> unchanged(old(p))
      ensures old(p) != old(o.p) && old(p) != null ==>
        (old(p).cnt == old(p.cnt) - 1 && old(p).holders == old(p.holders) - {this}
         && (old(p).deleted <==> old(p).cnt == 0))
      ensures old(p) != old(o.p) && old(o.p) != null ==>
        old(o.p).cnt == old(o.p.cnt) + 1 && old(o.p).holders == old(o.p.holders) + {this}
    {
      Reset(o.p);
    }

    /**
     * swap(o): exchanges the targets; no count changes, each target's holder
     * set trading this for o or o for this.
     */
    method Swap(o: SPtr)
      requires Valid() && o.Valid()
      requires p != o.p && p != null ==> o !in p.holders
      requires p != o.p && o.p != null ==> this !in o.p.holders
      modifies this, o, p, o.p
      ensures p == old(o.p) && o.p == old(p)
      ensures Valid() && o.Valid()
      ensures old(p) != null ==> old(p).cnt == old(p.cnt)
      ensures old(o.p) != null ==> old(o.p).cnt == old(o.p.cnt)
      ensures old(p) != old(o.p) && old(p) != null ==> old(p).holders == old(p.holders) - {this} + {o}
      ensures old(p) != old(o.p) && old(o.p) != null ==> old(o.p).holders == old(o.p.holders) - {o} + {this}
      ensures old(p) == old(o.p) && old(p) != null ==> old(p).holders == old(p.holders)
    {
      var tmp := p;
      if p != o.p {
        if p != null {
          p.holders := p.holders - {this} + {o};
        }
        if o.p != null {
          o.p.holders := o.p.holders - {o} + {this};
        }
      }
      p := o.p;
      o.p := tmp;
    }
  }
}
